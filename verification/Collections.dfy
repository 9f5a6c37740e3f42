/** One collection: its configuration, its identifier counter and its documents in
    insertion order, and the operations on it run one at a time. */
module Collections {
  import opened Decimal
  import JsonQuote
  import opened Seeding
  import opened Wrappers

  const CREATE_ATTEMPTS := 8

  type Body = map<string, Json>

  /** A row of `collections` with the rows of `documents` that belong to it. */
  datatype State = State(seed: seq<Entry>, idField: string, strategy: Strategy, next: int, docs: seq<Doc>)

  datatype Outcome = Done(doc: Doc) | Removed | NotFound | NotAnObjectBody | Failed

  function Find(docs: seq<Doc>, id: string): (r: Option<nat>)
    ensures r.Some? ==> r.value < |docs| && docs[r.value].publicId == id
    ensures r.None? ==> forall i :: 0 <= i < |docs| ==> docs[i].publicId != id
  {
    if docs == [] then None
    else
      var n := |docs| - 1;
      if docs[n].publicId == id then Some(n) else Find(docs[..n], id)
  }

  /** `update ... returning next_serial - 1`: the value just claimed. The column is a
      bigint, and a statement that would leave its range fails. */
  function Allocate(st: State): Option<(State, int)> {
    var after := if st.strategy == Serial then st.next + 1 else st.next;
    if after > MAX_INT64 || after - 1 < MIN_INT64 then None else Some((st.(next := after), after - 1))
  }

  function CreatedDoc(st: State, id: string, body: Body): Doc {
    Doc(id, body[st.idField := IdJson(id)])
  }

  /** The unique index on (collection, id) refuses a second document of the same id. */
  function Insert(st: State, doc: Doc): Option<State> {
    if Find(st.docs, doc.publicId).Some? then None else Some(st.(docs := st.docs + [doc]))
  }

  /** The attempts from number `attempt` on; `uuid(attempt)` is what a generator would give. */
  function CreateFrom(st: State, body: Body, uuid: nat -> string, attempt: nat): (State, Outcome)
    requires attempt <= CREATE_ATTEMPTS
    decreases CREATE_ATTEMPTS - attempt
  {
    if attempt == CREATE_ATTEMPTS then (st, Failed)
    else
      var claimed := Allocate(st);
      if claimed.None? then (st, Failed)
      else
        var (after, n) := claimed.value;
        var doc := CreatedDoc(after, if after.strategy == Uuid then uuid(attempt) else FormatInt(n), body);
        var inserted := Insert(after, doc);
        if inserted.Some? then (inserted.value, Done(doc)) else CreateFrom(after, body, uuid, attempt + 1)
  }

  /** No body is one that is not a JSON object. */
  function Created(st: State, body: Option<Body>, uuid: nat -> string): (State, Outcome) {
    if body.None? then (st, NotAnObjectBody) else CreateFrom(st, body.value, uuid, 0)
  }

  /** Whether what is written for the identifier is JSON: a canonical integer as it stands,
      anything else the way strconv.Quote quotes it. If not, the statement fails. */
  predicate Quotable(id: string, printable: char -> bool) {
    IdJson(id).Num? || JsonQuote.ReadJsonString(JsonQuote.GoQuote(id, printable)).Some?
  }

  /** PUT overwrites the document, PATCH merges one level deep; both put the identifier back. */
  function Written(st: State, id: string, body: Option<Body>, patch: bool, printable: char -> bool): (State, Outcome) {
    if body.None? then (st, NotAnObjectBody)
    else if !Quotable(id, printable) then (st, Failed)
    else
      var i := Find(st.docs, id);
      if i.None? then (st, NotFound)
      else
        var base := if patch then st.docs[i.value].body + body.value else body.value;
        var doc := CreatedDoc(st, id, base);
        (st.(docs := st.docs[i.value := doc]), Done(doc))
  }

  function Deleted(st: State, id: string): (State, Outcome) {
    var i := Find(st.docs, id);
    if i.None? then (st, NotFound) else (st.(docs := st.docs[..i.value] + st.docs[i.value + 1..]), Removed)
  }

  predicate DistinctIds(docs: seq<Doc>) {
    forall i, j :: 0 <= i < j < |docs| ==> docs[i].publicId != docs[j].publicId
  }

  /** Why a reset was not done, or how many documents there are now. */
  datatype ResetResult = NotSeeded(why: SeedResult) | Clash | Restored(count: nat)

  /** The seed is settled, and its rows inserted in one statement, which the unique index
      refuses if a generated identifier is there twice. */
  function ResetOutcome(st: State, uuid: nat -> string): ResetResult {
    var seeded := SeedOutcome(st.seed, st.idField, st.strategy, uuid);
    if !seeded.Seeded? then NotSeeded(seeded)
    else if !DistinctIds(seeded.docs) then Clash
    else Restored(|seeded.docs|)
  }

  /** One transaction: a seed that cannot be applied leaves everything as it was. */
  function ResetTo(st: State, uuid: nat -> string): State {
    var seeded := SeedOutcome(st.seed, st.idField, st.strategy, uuid);
    if ResetOutcome(st, uuid).Restored? then st.(docs := seeded.docs, next := seeded.next) else st
  }

  class Collection {
    var seed: seq<Entry>
    var idField: string
    var strategy: Strategy
    var next: int
    var docs: seq<Doc>

    ghost function View(): State
      reads this
    {
      State(seed, idField, strategy, next, docs)
    }

    /** A row as it is inserted; the seed is applied by a reset. */
    constructor (seed: seq<Entry>, idField: string, strategy: Strategy)
      ensures View() == State(seed, idField, strategy, 1, [])
    {
      this.seed, this.idField, this.strategy, next, docs := seed, idField, strategy, 1, [];
    }

    method AllocateDocumentId() returns (claimed: Option<int>)
      modifies this`next
      ensures match Allocate(old(View()))
              case Some((after, n)) => claimed == Some(n) && View() == after
              case None => claimed == None && View() == old(View())
    {
      var after := if strategy == Serial then next + 1 else next;
      if after > MAX_INT64 || after - 1 < MIN_INT64 {
        return None;
      }
      next := after;
      return Some(after - 1);
    }

    method CreateDocument(body: Option<Body>, uuid: nat -> string) returns (outcome: Outcome)
      modifies this
      ensures (View(), outcome) == Created(old(View()), body, uuid)
    {
      hide Find, IdJson, FormatInt;
      if body.None? {
        return NotAnObjectBody;
      }
      for attempt := 0 to CREATE_ATTEMPTS
        invariant CreateFrom(View(), body.value, uuid, attempt) == CreateFrom(old(View()), body.value, uuid, 0)
      {
        var claimed := AllocateDocumentId();
        if claimed.None? {
          return Failed;
        }
        var publicId := FormatInt(claimed.value);
        if strategy == Uuid {
          publicId := uuid(attempt);
        }
        if Find(docs, publicId).None? {
          var doc := Doc(publicId, body.value[idField := IdJson(publicId)]);
          docs := docs + [doc];
          return Done(doc);
        }
      }
      return Failed;
    }

    method WriteDocument(id: string, body: Option<Body>, patch: bool, printable: char -> bool) returns (outcome: Outcome)
      modifies this`docs
      ensures (View(), outcome) == Written(old(View()), id, body, patch, printable)
    {
      if body.None? {
        return NotAnObjectBody;
      } else if !Quotable(id, printable) {
        return Failed;
      }
      var i := Find(docs, id);
      if i.None? {
        return NotFound;
      }
      var base := if patch then docs[i.value].body + body.value else body.value;
      var doc := Doc(id, base[idField := IdJson(id)]);
      docs := docs[i.value := doc];
      return Done(doc);
    }

    method DeleteDocument(id: string) returns (outcome: Outcome)
      modifies this`docs
      ensures (View(), outcome) == Deleted(old(View()), id)
    {
      var i := Find(docs, id);
      if i.None? {
        return NotFound;
      }
      docs := docs[..i.value] + docs[i.value + 1..];
      return Removed;
    }

    /** Editing the definition touches neither the documents nor the counter. */
    method Update(seed: seq<Entry>, idField: string, strategy: Strategy)
      modifies this
      ensures View() == old(View()).(seed := seed, idField := idField, strategy := strategy)
    {
      this.seed, this.idField, this.strategy := seed, idField, strategy;
    }

    method Reset(uuid: nat -> string) returns (outcome: ResetResult)
      modifies this`docs, this`next
      ensures View() == ResetTo(old(View()), uuid) && outcome == ResetOutcome(old(View()), uuid)
    {
      hide SeedOutcome, DistinctIds;
      var seeded := SeedDocuments(seed, idField, strategy, uuid);
      if !seeded.Seeded? {
        return NotSeeded(seeded);
      } else if !DistinctIds(seeded.docs) {
        return Clash;
      }
      docs, next := seeded.docs, seeded.next;
      return Restored(|docs|);
    }
  }

  // The invariant ------------------------------------------------------------------------

  ghost predicate Below(id: string, next: int) {
    ParseInt(id).Some? ==> ParseInt(id).value < next
  }

  /** Public ids are distinct, and every one that reads as a 64-bit integer has been
      passed by the counter. */
  ghost predicate Inv(st: State) {
    && DistinctIds(st.docs)
    && (forall i :: 0 <= i < |st.docs| ==> Below(st.docs[i].publicId, st.next))
    && MIN_INT64 <= st.next <= MAX_INT64
  }

  /** The text of a version 4 UUID does not read as an integer: it has a hyphen inside. */
  ghost predicate UuidText(s: string) {
    |s| == 36 && s[8] == '-'
  }

  lemma UuidIsNotAnInteger(s: string)
    requires UuidText(s)
    ensures ParseInt(s).None?
  {
    assert s[1..][7] == s[8];
  }

  datatype Op =
    | Create(body: Option<Body>, uuid: nat -> string)
    | Write(id: string, newBody: Option<Body>, patch: bool, printable: char -> bool)
    | Delete(id: string)
    | Update(seed: seq<Entry>, idField: string, strategy: Strategy)
    | Reset(uuid: nat -> string)

  function Apply(st: State, op: Op): State {
    match op
    case Create(body, uuid) => Created(st, body, uuid).0
    case Write(id, body, patch, printable) => Written(st, id, body, patch, printable).0
    case Delete(id) => Deleted(st, id).0
    case Update(seed, idField, strategy) => st.(seed := seed, idField := idField, strategy := strategy)
    case Reset(uuid) => ResetTo(st, uuid)
  }

  /** What the theorems ask of an operation: generators give UUIDs, and no seed that gets
      applied holds the largest 64-bit integer. */
  ghost predicate Admissible(st: State, op: Op) {
    match op
    case Create(_, uuid) => forall k :: UuidText(uuid(k))
    case Reset(uuid) =>
      && (forall k :: UuidText(uuid(k)))
      && (ResetOutcome(st, uuid).Restored? ==>
            forall i :: 0 <= i < |ResetTo(st, uuid).docs| ==> ParseInt(ResetTo(st, uuid).docs[i].publicId) != Some(MAX_INT64))
    case _ => true
  }

  /** With the counter past every integer id, no document has its text for an id. */
  lemma NextIsFree(st: State)
    requires Inv(st)
    ensures Find(st.docs, FormatInt(st.next)).None?
  {
    hide Find, FormatInt, ParseInt, DistinctIds;
    ParseFormat(st.next);
    var i := Find(st.docs, FormatInt(st.next));
    assert i.Some? ==> Below(st.docs[i.value].publicId, st.next);
  }

  /** With the counter past every integer id, the first attempt of a serial create is free. */
  lemma FirstAttemptSucceeds(st: State, body: Body, uuid: nat -> string)
    requires Inv(st) && st.strategy == Serial && st.next < MAX_INT64
    ensures var doc := CreatedDoc(st, FormatInt(st.next), body);
            Created(st, Some(body), uuid) == (st.(next := st.next + 1, docs := st.docs + [doc]), Done(doc))
  {
    hide Find, Inv, IdJson, FormatInt;
    NextIsFree(st);
    InvBoundsNext(st);
  }

  lemma {:induction false} CreateKeepsInv(st: State, body: Body, uuid: nat -> string, attempt: nat)
    requires attempt <= CREATE_ATTEMPTS && Inv(st) && forall k :: UuidText(uuid(k))
    ensures Inv(CreateFrom(st, body, uuid, attempt).0) && st.next <= CreateFrom(st, body, uuid, attempt).0.next
    decreases CREATE_ATTEMPTS - attempt
  {
    hide IdJson, FormatInt, ParseInt, UuidText, Find;
    if attempt < CREATE_ATTEMPTS && Allocate(st).Some? {
      var (after, n) := Allocate(st).value;
      UuidIsNotAnInteger(uuid(attempt));
      ParseFormat(n);
      CreateKeepsInv(after, body, uuid, attempt + 1);
    }
  }

  /** A reset that is done establishes the invariant, whatever the state was, exactly when
      the seed it applies does not hold the largest 64-bit integer. */
  lemma ResetEstablishesInv(st: State, uuid: nat -> string)
    requires ResetOutcome(st, uuid).Restored?
    ensures Inv(ResetTo(st, uuid)) <==>
              forall i :: 0 <= i < |ResetTo(st, uuid).docs| ==> ParseInt(ResetTo(st, uuid).docs[i].publicId) != Some(MAX_INT64)
  {
    hide ParseInt, SeedOutcome, DistinctIds;
    var outcome := SeedOutcome(st.seed, st.idField, st.strategy, uuid);
    SeedCounter(st, uuid);
    IdsInDocs(outcome.docs);
    CounterClearsTheSeed(Ids(outcome.docs));
  }

  /** A seed that settles is refused by the unique index only if a generator repeats itself
      or hits what the seed states; under `serial` never. */
  lemma SettledSeedIsRestored(st: State, uuid: nat -> string)
    requires SeedOutcome(st.seed, st.idField, st.strategy, uuid).Seeded?
    requires st.strategy == Uuid ==> FreshUuids(st.seed, st.idField, uuid)
    ensures ResetOutcome(st, uuid) == Restored(|st.seed|)
  {
    hide SeedOutcome, FreshUuids;
    var docs := SeedOutcome(st.seed, st.idField, st.strategy, uuid).docs;
    forall i, j | 0 <= i < j < |docs| ensures docs[i].publicId != docs[j].publicId {
      SeedIds(st, uuid, i, j);
    }
    SeedSize(st, uuid);
  }

  lemma SeedSize(st: State, uuid: nat -> string)
    requires SeedOutcome(st.seed, st.idField, st.strategy, uuid).Seeded?
    ensures |SeedOutcome(st.seed, st.idField, st.strategy, uuid).docs| == |st.seed|
  {
    hide FirstError;
  }

  lemma SeedCounter(st: State, uuid: nat -> string)
    requires SeedOutcome(st.seed, st.idField, st.strategy, uuid).Seeded?
    ensures var outcome := SeedOutcome(st.seed, st.idField, st.strategy, uuid);
            outcome.next == Wrap64(Highest(Ids(outcome.docs)) + 1) && MIN_INT64 <= outcome.next <= MAX_INT64
  {
    hide FirstError, Settled;
  }

  lemma SeedIds(st: State, uuid: nat -> string, i: nat, j: nat)
    requires SeedOutcome(st.seed, st.idField, st.strategy, uuid).Seeded?
    requires st.strategy == Uuid ==> FreshUuids(st.seed, st.idField, uuid)
    requires i < j < |SeedOutcome(st.seed, st.idField, st.strategy, uuid).docs|
    ensures var docs := SeedOutcome(st.seed, st.idField, st.strategy, uuid).docs; docs[i].publicId != docs[j].publicId
  {
    hide FirstError, SettledId, FreshUuids;
    SettledIdsDiffer(st.seed, st.idField, st.strategy, uuid, i, j);
  }

  lemma IdsInDocs(docs: seq<Doc>)
    ensures forall id :: id in Ids(docs) <==> exists i :: 0 <= i < |docs| && docs[i].publicId == id
  {
    var ids := Ids(docs);
    forall id ensures id in ids <==> exists i :: 0 <= i < |docs| && docs[i].publicId == id {
      if i :| 0 <= i < |docs| && docs[i].publicId == id {
        assert ids[i] == id;
      }
    }
  }

  /** Every operation keeps the invariant. */
  lemma ApplyKeepsInv(st: State, op: Op)
    requires Inv(st) && Admissible(st, op)
    ensures Inv(Apply(st, op))
  {
    hide ParseInt, IdJson, UuidText, SeedOutcome, CreateFrom, Quotable;
    match op
    case Create(body, uuid) =>
      if body.Some? {
        CreateKeepsInv(st, body.value, uuid, 0);
      }
    case Write(id, body, patch, printable) =>
    case Delete(id) =>
    case Update(seed, idField, strategy) =>
    case Reset(uuid) =>
      if ResetOutcome(st, uuid).Restored? {
        ResetEstablishesInv(st, uuid);
      }
  }

  // Whole runs -----------------------------------------------------------------------------

  function Start(seed: seq<Entry>, idField: string, strategy: Strategy): State {
    State(seed, idField, strategy, 1, [])
  }

  function After(start: State, ops: seq<Op>): State {
    if ops == [] then start else Apply(After(start, ops[..|ops| - 1]), ops[|ops| - 1])
  }

  ghost predicate AllAdmissible(start: State, ops: seq<Op>) {
    forall i :: 0 <= i < |ops| ==> Admissible(After(start, ops[..i]), ops[i])
  }

  /** Every state reachable by any run of operations satisfies the invariant. */
  lemma {:induction false} ReachableStatesAreSound(start: State, ops: seq<Op>)
    requires Inv(start) && AllAdmissible(start, ops)
    ensures Inv(After(start, ops))
  {
    hide Inv, Admissible, Apply;
    if ops != [] {
      var n := |ops| - 1;
      forall i | 0 <= i < n ensures Admissible(After(start, ops[..n][..i]), ops[..n][i]) {
        assert ops[..n][..i] == ops[..i];
      }
      ReachableStatesAreSound(start, ops[..n]);
      ApplyKeepsInv(After(start, ops[..n]), ops[n]);
    }
  }

  ghost function IdSet(docs: seq<Doc>): set<string> {
    set i | 0 <= i < |docs| :: docs[i].publicId
  }

  /** Every id a document has had since the last reset that was applied. */
  ghost function EverSinceReset(start: State, ops: seq<Op>): set<string> {
    if ops == [] then IdSet(start.docs)
    else
      var n := |ops| - 1;
      var before, after := After(start, ops[..n]), After(start, ops);
      (if Restarts(before, ops[n]) then {} else EverSinceReset(start, ops[..n])) + IdSet(after.docs)
  }

  ghost predicate Restarts(st: State, op: Op) {
    op.Reset? && ResetOutcome(st, op.uuid).Restored?
  }

  lemma {:induction false} EverIsBelow(start: State, ops: seq<Op>)
    requires Inv(start) && AllAdmissible(start, ops)
    ensures forall id :: id in EverSinceReset(start, ops) ==> Below(id, After(start, ops).next)
  {
    hide Inv, Admissible, Apply, Restarts, ParseInt;
    ReachableStatesAreSound(start, ops);
    InvCoversIdSet(After(start, ops));
    if ops != [] {
      var n := |ops| - 1;
      forall i | 0 <= i < n ensures Admissible(After(start, ops[..n][..i]), ops[..n][i]) {
        assert ops[..n][..i] == ops[..i];
      }
      EverIsBelow(start, ops[..n]);
      ReachableStatesAreSound(start, ops[..n]);
      CounterOnlyGrows(After(start, ops[..n]), ops[n]);
    }
  }

  lemma InvCoversIdSet(st: State)
    requires Inv(st)
    ensures forall id :: id in IdSet(st.docs) ==> Below(id, st.next)
  {
    hide ParseInt;
  }

  lemma CounterOnlyGrows(st: State, op: Op)
    requires Inv(st) && Admissible(st, op)
    ensures !Restarts(st, op) ==> st.next <= Apply(st, op).next
  {
    hide ParseInt, IdJson, UuidText, SeedOutcome, CreateFrom, Quotable;
    if op.Create? && op.body.Some? {
      CreateKeepsInv(st, op.body.value, op.uuid, 0);
    }
  }

  /** In any run, a serial create succeeds at once, with an id no document has had since
      the last reset, deleted ones included. */
  lemma SerialIdsAreNotReused(start: State, ops: seq<Op>, body: Body, uuid: nat -> string)
    requires Inv(start) && AllAdmissible(start, ops)
    requires After(start, ops).strategy == Serial && After(start, ops).next < MAX_INT64
    ensures var st := After(start, ops);
            var (after, outcome) := Created(st, Some(body), uuid);
            && outcome.Done? && outcome.doc.publicId == FormatInt(st.next)
            && after == st.(next := st.next + 1, docs := st.docs + [outcome.doc])
            && outcome.doc.publicId !in EverSinceReset(start, ops)
  {
    hide Inv, AllAdmissible, After, Created, FormatInt, ParseInt, IdJson, EverSinceReset;
    var st := After(start, ops);
    ReachableStatesAreSound(start, ops);
    InvBoundsNext(st);
    FirstAttemptSucceeds(st, body, uuid);
    EverIsBelow(start, ops);
    ParseFormat(st.next);
  }

  lemma InvBoundsNext(st: State)
    requires Inv(st)
    ensures MIN_INT64 <= st.next <= MAX_INT64
  {
  }

  /** Whatever the body said, a document that was just written carries its own id in the
      identifier field, and writing the same again changes nothing. */
  lemma WritesKeepTheId(st: State, id: string, body: Body, patch: bool, printable: char -> bool)
    requires id != ""
    ensures var (after, outcome) := Written(st, id, Some(body), patch, printable);
            && |after.docs| == |st.docs|
            && (outcome.Done? <==> Quotable(id, printable) && exists i :: 0 <= i < |st.docs| && st.docs[i].publicId == id)
            && (outcome.Done? ==>
                  && outcome.doc.publicId == id && st.idField in outcome.doc.body
                  && ScalarText(outcome.doc.body[st.idField]) == Some(id)
                  && forall k :: k in body && k != st.idField ==> k in outcome.doc.body && outcome.doc.body[k] == body[k])
            && (forall i :: 0 <= i < |st.docs| && st.docs[i].publicId != id ==> after.docs[i] == st.docs[i])
            && Written(after, id, Some(body), patch, printable) == (after, outcome)
  {
    hide ScalarText, IdJson;
    ScalarTextOfIdJson(id);
    WriteTwice(st, id, body, patch, printable);
  }

  /** What a document holds after PUT: the fields sent and its identifier, and nothing else.
      After PATCH: besides those the fields it had, with the values they had. */
  ghost predicate StoresExactly(stored: Doc, before: Doc, sent: Body, idField: string, patch: bool) {
    && stored.publicId == before.publicId
    && (forall k :: k in stored.body <==> k == idField || k in sent || (patch && k in before.body))
    && (forall k :: k in sent && k != idField ==> stored.body[k] == sent[k])
    && (patch ==> forall k :: k in before.body && k !in sent && k != idField ==> stored.body[k] == before.body[k])
    && stored.body[idField] == IdJson(stored.publicId)
  }

  /** What a write stores, and where; whether it was PUT or PATCH makes the difference it
      should. A write that is not done changes nothing. */
  lemma WritesStoreExactly(st: State, id: string, body: Option<Body>, patch: bool, printable: char -> bool)
    ensures var (after, outcome) := Written(st, id, body, patch, printable);
            && (outcome.Done? ==>
                  exists i :: 0 <= i < |st.docs| && st.docs[i].publicId == id && after == st.(docs := st.docs[i := outcome.doc])
                              && StoresExactly(outcome.doc, st.docs[i], body.value, st.idField, patch))
            && (!outcome.Done? ==> after == st)
            && (outcome == NotAnObjectBody <==> body.None?)
            && (outcome == NotFound <==> body.Some? && Quotable(id, printable) && forall d :: d in st.docs ==> d.publicId != id)
  {
    hide Find, Quotable, IdJson;
    if body.Some? && Find(st.docs, id).Some? {
      assert st.docs[Find(st.docs, id).value] in st.docs;
    }
  }

  /** DELETE removes the document with that id and leaves the others in their order; without
      one it changes nothing. */
  lemma DeleteRemovesExactly(st: State, id: string)
    requires DistinctIds(st.docs)
    ensures var (after, outcome) := Deleted(st, id);
            && (outcome == Removed <==> exists i :: 0 <= i < |st.docs| && st.docs[i].publicId == id)
            && (outcome == Removed ==>
                  && (exists i :: 0 <= i < |st.docs| && st.docs[i].publicId == id
                                  && after == st.(docs := st.docs[..i] + st.docs[i + 1..]))
                  && forall d :: d in after.docs <==> d in st.docs && d.publicId != id)
            && (outcome != Removed ==> outcome == NotFound && after == st)
  {
    hide Find;
    var i := Find(st.docs, id);
    if i.Some? {
      RemovedAt(st.docs, i.value);
    }
  }

  lemma RemovedAt(docs: seq<Doc>, i: nat)
    requires i < |docs| && DistinctIds(docs)
    ensures forall d :: d in docs[..i] + docs[i + 1..] <==> d in docs && d.publicId != docs[i].publicId
  {
    var rest := docs[..i] + docs[i + 1..];
    assert docs == docs[..i] + [docs[i]] + docs[i + 1..];
    assert forall k :: 0 <= k < i ==> rest[k] == docs[k];
    assert forall k :: i <= k < |rest| ==> rest[k] == docs[k + 1];
  }

  /** The id the attempt number `k` of a create goes for. */
  function ClaimedId(st: State, uuid: nat -> string, k: nat): string {
    if st.strategy == Uuid then uuid(k) else FormatInt(st.next + k)
  }

  ghost predicate Taken(st: State, id: string) {
    exists i :: 0 <= i < |st.docs| && st.docs[i].publicId == id
  }

  /** The collection after `k` claims and nothing else. */
  function Claimed(st: State, k: nat): State {
    if st.strategy == Serial then st.(next := st.next + k) else st
  }

  lemma {:induction false} CreateGoesOn(st: State, body: Body, uuid: nat -> string, a: nat, k: nat)
    requires a <= k <= CREATE_ATTEMPTS && MIN_INT64 < st.next && st.next + CREATE_ATTEMPTS <= MAX_INT64
    requires forall j :: a <= j < k ==> Taken(st, ClaimedId(st, uuid, j))
    requires k < CREATE_ATTEMPTS ==> !Taken(st, ClaimedId(st, uuid, k))
    ensures CreateFrom(Claimed(st, a), body, uuid, a)
         == if k == CREATE_ATTEMPTS then (Claimed(st, k), Failed)
            else
              var doc := CreatedDoc(st, ClaimedId(st, uuid, k), body);
              (Claimed(st, k + 1).(docs := st.docs + [doc]), Done(doc))
    decreases k - a
  {
    hide Find, CreateFrom, CreatedDoc, ClaimedId, Claimed, Taken;
    if a < k {
      CreateGoesOn(st, body, uuid, a + 1, k);
    }
    if a < CREATE_ATTEMPTS {
      AttemptIs(st, body, uuid, a);
    } else {
      NoMoreAttempts(Claimed(st, a), body, uuid);
    }
  }

  lemma NoMoreAttempts(st: State, body: Body, uuid: nat -> string)
    ensures CreateFrom(st, body, uuid, CREATE_ATTEMPTS) == (st, Failed)
  {
  }

  /** One attempt: a claim, then an insert unless the id is taken. */
  lemma AttemptIs(st: State, body: Body, uuid: nat -> string, a: nat)
    requires a < CREATE_ATTEMPTS && MIN_INT64 < st.next && st.next + CREATE_ATTEMPTS <= MAX_INT64
    ensures var id := ClaimedId(st, uuid, a);
            CreateFrom(Claimed(st, a), body, uuid, a)
            == if Taken(st, id) then CreateFrom(Claimed(st, a + 1), body, uuid, a + 1)
               else (Claimed(st, a + 1).(docs := st.docs + [CreatedDoc(st, id, body)]), Done(CreatedDoc(st, id, body)))
  {
    hide Find, IdJson, FormatInt;
  }

  /** A create stores its document under the first of eight ids that is free, the counter's
      and those after it under `serial`, generated ones otherwise, with exactly the fields
      sent and that id; it fails if none is free. The counter moves on under `serial` only,
      past the ids that were tried. */
  lemma CreateTakesTheFirstFree(st: State, body: Body, uuid: nat -> string, k: nat)
    requires MIN_INT64 < st.next && st.next + 8 <= MAX_INT64 && k <= 8
    requires forall j :: 0 <= j < k ==> Taken(st, ClaimedId(st, uuid, j))
    requires k < 8 ==> !Taken(st, ClaimedId(st, uuid, k))
    ensures var (after, outcome) := Created(st, Some(body), uuid);
            var tried := if st.strategy == Serial then (if k < 8 then k + 1 else 8) else 0;
            if k == 8 then outcome == Failed && after == st.(next := st.next + tried)
            else
              && outcome.Done? && outcome.doc.publicId == ClaimedId(st, uuid, k)
              && after == st.(next := st.next + tried, docs := st.docs + [outcome.doc])
              && (forall f :: f in outcome.doc.body <==> f in body || f == st.idField)
              && (forall f :: f in body && f != st.idField ==> outcome.doc.body[f] == body[f])
              && outcome.doc.body[st.idField] == IdJson(outcome.doc.publicId)
  {
    hide CreateFrom, IdJson, ClaimedId;
    CreateGoesOn(st, body, uuid, 0, k);
    assert Claimed(st, 0) == st;
  }

  /** A reset that is done leaves exactly the seed: entry by entry, in order, what is stated
      as it stands, the identifier added where it was not, whatever there was before. One
      that is not done changes nothing. */
  lemma ResetRestoresTheSeed(st: State, uuid: nat -> string)
    requires forall i :: uuid(i) != ""
    ensures var (after, outcome) := (ResetTo(st, uuid), ResetOutcome(st, uuid));
            && (!outcome.Restored? ==> after == st)
            && (outcome.Restored? ==>
                  && outcome.count == |after.docs| == |st.seed|
                  && after == st.(docs := after.docs, next := after.next)
                  && forall i :: 0 <= i < |st.seed| ==> Restores(after.docs[i], st.seed[i], st.idField))
  {
    hide SeedOutcome, DistinctIds, ScalarText;
    if ResetOutcome(st, uuid).Restored? {
      SeedSize(st, uuid);
      forall i | 0 <= i < |st.seed| ensures Restores(ResetTo(st, uuid).docs[i], st.seed[i], st.idField) {
        DocumentsCarryTheirIds(st.seed, st.idField, st.strategy, uuid, i);
      }
    }
  }

  /** And the counter is left one past the largest id that reads as a 64-bit integer, or at
      one if there is none above zero; only past 2^63-1 it wraps. */
  lemma ResetCounterIsOnePast(st: State, uuid: nat -> string)
    requires ResetOutcome(st, uuid).Restored?
    ensures var after := ResetTo(st, uuid);
            if exists i :: 0 <= i < |after.docs| && ParseInt(after.docs[i].publicId) == Some(MAX_INT64) then
              after.next == MIN_INT64
            else
              && after.next >= 1
              && (forall i :: 0 <= i < |after.docs| ==> Below(after.docs[i].publicId, after.next))
              && (after.next == 1 || exists i :: 0 <= i < |after.docs| && ParseInt(after.docs[i].publicId) == Some(after.next - 1))
  {
    hide ParseInt, SeedOutcome, DistinctIds, Highest, Wrap64;
    var docs := SeedOutcome(st.seed, st.idField, st.strategy, uuid).docs;
    SeedCounter(st, uuid);
    CounterIsOnePast(Ids(docs));
    IdsInDocs(docs);
  }

  ghost predicate Restores(doc: Doc, entry: Entry, idField: string) {
    && entry.Object? && idField in doc.body && ScalarText(doc.body[idField]) == Some(doc.publicId)
    && (idField in entry.fields ==> doc.body == entry.fields)
    && doc.body - {idField} == entry.fields - {idField}
  }

  /** A PUT or PATCH of a document that is there fails exactly when its identifier is not a
      canonical integer and holds a character strconv.Quote does not write as JSON. */
  lemma WriteFailsExactlyWhen(st: State, id: string, body: Body, patch: bool, printable: char -> bool)
    requires Find(st.docs, id).Some? && JsonQuote.PrintTable(printable)
    ensures Written(st, id, Some(body), patch, printable).1 == Failed
            <==> !(ParseInt(id).Some? && FormatInt(ParseInt(id).value) == id)
                 && exists i :: 0 <= i < |id| && !JsonQuote.Portable(id[i], printable)
  {
    hide JsonQuote.ReadJsonString, JsonQuote.GoQuote, JsonQuote.Portable, Find, ParseInt, FormatInt;
    JsonQuote.QuoteIsJsonExactlyWhenPortable(id, printable);
    IntegersAreSomething(id);
  }

  lemma IntegersAreSomething(id: string)
    ensures ParseInt(id).Some? ==> id != ""
  {
  }

  lemma WriteTwice(st: State, id: string, body: Body, patch: bool, printable: char -> bool)
    ensures var (after, outcome) := Written(st, id, Some(body), patch, printable);
            Written(after, id, Some(body), patch, printable) == (after, outcome)
  {
    hide IdJson;
    var (after, outcome) := Written(st, id, Some(body), patch, printable);
    if outcome.Done? {
      var i := Find(st.docs, id).value;
      FindAfterWrite(st.docs, id, outcome.doc);
      assert after.docs[i] == outcome.doc;
      var again := CreatedDoc(after, id, if patch then outcome.doc.body + body else body);
      assert again.body == outcome.doc.body;
      assert after.docs[i := again] == after.docs;
    }
  }

  lemma {:induction false} FindAfterWrite(docs: seq<Doc>, id: string, doc: Doc)
    requires doc.publicId == id && Find(docs, id).Some?
    ensures Find(docs[Find(docs, id).value := doc], id) == Find(docs, id)
  {
    var n := |docs| - 1;
    var i := Find(docs, id).value;
    if docs[n].publicId != id {
      FindAfterWrite(docs[..n], id, doc);
      assert docs[i := doc][..n] == docs[..n][i := doc];
    }
  }
}
