/** Creates whose allocation and insert are separate statements, so that a reset can fall
    between them. Allocation and reset hold the collection's row; an insert takes a key
    share of it, so it falls entirely before or after a reset. */
module Interleaving {
  import opened Collections
  import opened Decimal
  import opened Sets
  import opened Wrappers

  /** An identifier a create has claimed and not inserted yet. `late` once a reset has
      fallen in between. */
  datatype Claim = Claim(id: string, number: Option<int>, late: bool)

  /** A create in progress: how many attempts have failed, how many of those with a UUID,
      the ids of the others, and whether a reset has happened since it began. */
  datatype Client = Client(claim: Option<Claim>, failures: nat, uuidFailures: nat, collided: set<string>, disturbed: bool)

  /** `lateIds` are the ids inserted since the last reset by creates that had claimed them
      before it, `lateInserts` how many such inserts there were. */
  datatype World = World(next: int, ids: set<string>, clients: map<int, Client>, lateIds: set<string>, lateInserts: nat)

  datatype Step =
    | Begin(client: int)
    | ClaimSerial(client: int)
    | ClaimUuid(client: int, uuid: string)
    | InsertClaim(client: int)
    | DeleteDoc(id: string)
    | ResetAll(ids: set<string>, next: int)

  ghost predicate CanClaim(w: World, c: int) {
    c in w.clients && w.clients[c].claim.None? && w.clients[c].failures < CREATE_ATTEMPTS
  }

  ghost predicate Enabled(w: World, step: Step) {
    match step
    case Begin(c) => c !in w.clients
    case ClaimSerial(c) => CanClaim(w, c) && MIN_INT64 <= w.next < MAX_INT64
    case ClaimUuid(c, uuid) => CanClaim(w, c) && UuidText(uuid)
    case InsertClaim(c) => c in w.clients && w.clients[c].claim.Some?
    case DeleteDoc(id) => true
    case ResetAll(ids, next) => MIN_INT64 <= next <= MAX_INT64 && forall id :: id in ids ==> Below(id, next)
  }

  ghost function Crossed(client: Client): Client {
    client.(disturbed := true, claim := if client.claim.Some? then Some(client.claim.value.(late := true)) else None)
  }

  /** A client whose insert was refused. */
  ghost function Collided(client: Client): Client
    requires client.claim.Some?
  {
    var claim, failed := client.claim.value, client.(claim := None, failures := client.failures + 1);
    if claim.number.Some? then failed.(collided := client.collided + {claim.id})
    else failed.(uuidFailures := client.uuidFailures + 1)
  }

  ghost function Apply(w: World, step: Step): World
    requires Enabled(w, step)
  {
    match step
    case Begin(c) => w.(clients := w.clients[c := Client(None, 0, 0, {}, false)])
    case ClaimSerial(c) =>
      var claim := Claim(FormatInt(w.next), Some(w.next), false);
      w.(next := w.next + 1, clients := w.clients[c := w.clients[c].(claim := Some(claim))])
    case ClaimUuid(c, uuid) =>
      w.(clients := w.clients[c := w.clients[c].(claim := Some(Claim(uuid, None, false)))])
    case InsertClaim(c) =>
      var client := w.clients[c];
      var claim := client.claim.value;
      if claim.id in w.ids then
        w.(clients := w.clients[c := Collided(client)])
      else
        var done := w.(ids := w.ids + {claim.id}, clients := w.clients - {c});
        if claim.late then done.(lateIds := w.lateIds + {claim.id}, lateInserts := w.lateInserts + 1) else done
    case DeleteDoc(id) => w.(ids := w.ids - {id})
    case ResetAll(ids, next) =>
      World(next, ids, map c | c in w.clients :: Crossed(w.clients[c]), {}, 0)
  }

  // The invariant -----------------------------------------------------------------------

  /** A serial number claimed since the last reset has been passed by the counter, and if
      its id is taken already, a late insert took it. */
  ghost predicate TimelyClaim(w: World, claim: Claim) {
    claim.number.Some? && !claim.late ==>
      && claim.number.value < w.next
      && (claim.id in w.ids ==> claim.id in w.lateIds)
  }

  ghost predicate SoundClaim(claim: Claim) {
    match claim.number
    case Some(n) => MIN_INT64 <= n <= MAX_INT64 && claim.id == FormatInt(n)
    case None => UuidText(claim.id)
  }

  /** What an undisturbed create has run into are late inserts below what it claims now. */
  ghost predicate SoundClient(w: World, client: Client) {
    && (client.claim.Some? ==> SoundClaim(client.claim.value) && TimelyClaim(w, client.claim.value))
    && (!client.disturbed ==>
          && client.collided <= w.lateIds
          && client.failures == |client.collided| + client.uuidFailures
          && (client.claim.Some? ==> !client.claim.value.late)
          && (forall id :: id in client.collided ==> Below(id, w.next) && ParseInt(id).Some?)
          && (client.claim.Some? && client.claim.value.number.Some? ==>
                forall id :: id in client.collided ==> Below(id, client.claim.value.number.value)))
  }

  ghost predicate Sound(w: World) {
    && MIN_INT64 <= w.next <= MAX_INT64
    && (forall id :: id in w.ids && !Below(id, w.next) ==> id in w.lateIds)
    && |w.lateIds| <= w.lateInserts
    && (forall c :: c in w.clients ==> SoundClient(w, w.clients[c]))
    && (forall c, d :: c in w.clients && d in w.clients && c != d ==> ClaimsDiffer(w.clients[c], w.clients[d]))
  }

  /** No two creates hold the same serial number since the last reset. */
  ghost predicate ClaimsDiffer(a: Client, b: Client) {
    (a.claim.Some? && b.claim.Some? && a.claim.value.number.Some? && b.claim.value.number.Some?
     && !a.claim.value.late && !b.claim.value.late) ==> a.claim.value.number != b.claim.value.number
  }

  lemma ClaimKeepsSound(w: World, step: Step)
    requires Sound(w) && Enabled(w, step) && step.ClaimSerial?
    ensures Sound(Apply(w, step))
  {
    hide FormatInt, ParseInt, UuidText;
    var w', c := Apply(w, step), step.client;
    ParseFormat(w.next);
    forall d | d in w'.clients ensures SoundClient(w', w'.clients[d]) {
      assert SoundClient(w, w.clients[d]);
    }
  }

  lemma ClaimParses(claim: Claim)
    requires SoundClaim(claim)
    ensures ParseInt(claim.id) == claim.number
  {
    if claim.number.Some? {
      ParseFormat(claim.number.value);
    } else {
      UuidIsNotAnInteger(claim.id);
    }
  }

  /** What an undisturbed client has collided with is one late insert more. */
  lemma CollidedIsSound(w: World, client: Client)
    requires SoundClient(w, client) && client.claim.Some? && client.claim.value.id in w.ids
    ensures SoundClient(w, Collided(client))
  {
    hide FormatInt, ParseInt, UuidText;
    var claim := client.claim.value;
    ClaimParses(claim);
    if claim.number.Some? && !client.disturbed {
      assert claim.id in client.collided ==> Below(claim.id, claim.number.value);
    }
  }

  /** A claim that finds its id taken. */
  lemma CollisionKeepsSound(w: World, step: Step)
    requires Sound(w) && Enabled(w, step) && step.InsertClaim? && w.clients[step.client].claim.value.id in w.ids
    ensures Sound(Apply(w, step))
  {
    hide Below, FormatInt, ParseInt, UuidText, SoundClaim;
    var w' := Apply(w, step);
    CollidedIsSound(w, w.clients[step.client]);
    forall d | d in w'.clients ensures SoundClient(w', w'.clients[d]) {
      SameTables(w, w', w'.clients[d]);
      assert d != step.client ==> SoundClient(w, w.clients[d]);
    }
    forall a, b | a in w'.clients && b in w'.clients && a != b ensures ClaimsDiffer(w'.clients[a], w'.clients[b]) {
      assert ClaimsDiffer(w.clients[a], w.clients[b]);
    }
  }

  /** Of the world a client only depends on the counter and on which ids there are. */
  lemma SameTables(w: World, w': World, client: Client)
    requires w.next == w'.next && w.ids == w'.ids && w.lateIds == w'.lateIds
    ensures SoundClient(w, client) <==> SoundClient(w', client)
  {
    hide Below, FormatInt, ParseInt, UuidText, SoundClaim;
  }

  lemma InsertKeepsSound(w: World, step: Step)
    requires Sound(w) && Enabled(w, step) && step.InsertClaim? && w.clients[step.client].claim.value.id !in w.ids
    ensures Sound(Apply(w, step))
  {
    hide FormatInt, ParseInt, UuidText;
    var w', c := Apply(w, step), step.client;
    assert SoundClient(w, w.clients[c]);
    ClaimParses(w.clients[c].claim.value);
    forall d | d in w'.clients ensures SoundClient(w', w'.clients[d]) {
      assert SoundClient(w, w.clients[d]) && ClaimsDiffer(w.clients[c], w.clients[d]);
      if w.clients[d].claim.Some? {
        ClaimParses(w.clients[d].claim.value);
      }
    }
  }

  lemma ApplyKeepsSound(w: World, step: Step)
    requires Sound(w) && Enabled(w, step)
    ensures Sound(Apply(w, step))
  {
    hide FormatInt, ParseInt, UuidText;
    match step
    case ClaimSerial(c) => ClaimKeepsSound(w, step);
    case InsertClaim(c) =>
      if w.clients[c].claim.value.id in w.ids {
        CollisionKeepsSound(w, step);
      } else {
        InsertKeepsSound(w, step);
      }
    case _ =>
      var w' := Apply(w, step);
      forall d | d in w'.clients ensures SoundClient(w', w'.clients[d]) {
        assert d in w.clients ==> SoundClient(w, w.clients[d]);
      }
      forall c, d | c in w'.clients && d in w'.clients && c != d ensures ClaimsDiffer(w'.clients[c], w'.clients[d]) {
        assert c in w.clients && d in w.clients ==> ClaimsDiffer(w.clients[c], w.clients[d]);
      }
  }

  // Whole runs ----------------------------------------------------------------------------

  ghost predicate Run(start: World, steps: seq<Step>)
    decreases |steps|, 0
  {
    steps != [] ==>
      var before := steps[..|steps| - 1];
      Run(start, before) && Enabled(After(start, before), steps[|steps| - 1])
  }

  ghost function After(start: World, steps: seq<Step>): World
    requires Run(start, steps)
    decreases |steps|, 1
  {
    if steps == [] then start else Apply(After(start, steps[..|steps| - 1]), steps[|steps| - 1])
  }

  lemma {:induction false} RunsAreSound(start: World, steps: seq<Step>)
    requires Sound(start) && Run(start, steps)
    ensures Sound(After(start, steps))
  {
    hide Sound, Enabled, Apply;
    if steps != [] {
      var before := steps[..|steps| - 1];
      RunsAreSound(start, before);
      ApplyKeepsSound(After(start, before), steps[|steps| - 1]);
    }
  }

  /** The documents the counter would collide with. */
  ghost function Stale(w: World): set<string> {
    set id | id in w.ids && !Below(id, w.next)
  }

  /** Documents at or above the counter never outnumber the creates that claimed their id
      before a reset and inserted it after. */
  lemma StaleDocumentsAreLateInserts(start: World, steps: seq<Step>)
    requires Sound(start) && Run(start, steps)
    ensures var w := After(start, steps); Stale(w) <= w.lateIds && |Stale(w)| <= w.lateInserts
  {
    RunsAreSound(start, steps);
    var w := After(start, steps);
    SubsetSize(Stale(w), w.lateIds);
  }

  /** A create under `serial` that no reset disturbs has failed at most as often as there
      were late inserts, each time on a different one of their ids; so it gives up only
      after at least as many of them as it has attempts. */
  lemma SerialCreateGivesUpOnlyAfterLateInserts(start: World, steps: seq<Step>, c: int)
    requires Sound(start) && Run(start, steps) && c in After(start, steps).clients
    requires !After(start, steps).clients[c].disturbed && After(start, steps).clients[c].uuidFailures == 0
    ensures var w := After(start, steps);
            var client := w.clients[c];
            && client.collided <= w.lateIds
            && client.failures == |client.collided| <= w.lateInserts
            && (client.failures == CREATE_ATTEMPTS ==> w.lateInserts >= CREATE_ATTEMPTS)
  {
    RunsAreSound(start, steps);
    var w := After(start, steps);
    assert SoundClient(w, w.clients[c]);
    SubsetSize(w.clients[c].collided, w.lateIds);
  }

  /** The row lock does not keep the counter from pointing at an id that exists. An insert
      leaves it there exactly when it inserts a number the counter has not reached, and
      that takes a reset since the number was claimed. */
  lemma InsertLeavesStaleExactlyWhen(w: World, c: int)
    requires Sound(w) && Stale(w) == {} && Enabled(w, InsertClaim(c)) && w.clients[c].claim.value.id !in w.ids
    ensures var claim := w.clients[c].claim.value;
            && (Stale(Apply(w, InsertClaim(c))) != {} <==> claim.number.Some? && claim.number.value >= w.next)
            && (Stale(Apply(w, InsertClaim(c))) != {} ==> claim.late)
  {
    hide FormatInt, ParseInt, UuidText;
    var claim := w.clients[c].claim.value;
    assert SoundClient(w, w.clients[c]);
    ClaimParses(claim);
    var w' := Apply(w, InsertClaim(c));
    assert claim.id in w'.ids;
    assert claim.id in Stale(w') <==> !Below(claim.id, w.next);
    forall id | id in Stale(w') ensures id == claim.id {
      assert id in w.ids ==> id in Stale(w) || Below(id, w.next);
    }
  }

  /** And it does happen: claim, reset, insert, and the next create collides. */
  lemma ResetCanLeaveTheCounterBehind(start: World)
    requires start == World(1, {}, map[], {}, 0)
    ensures exists steps :: Run(start, steps) && Stale(After(start, steps)) == {FormatInt(1)} && After(start, steps).next == 1
  {
    hide FormatInt, ParseInt, Run, After;
    EmptyRun(start);
    var s1 := [] + [Begin(0)];
    RunSnoc(start, [], Begin(0));
    assert After(start, s1) == World(1, {}, map[0 := Client(None, 0, 0, {}, false)], {}, 0);
    var s2 := s1 + [ClaimSerial(0)];
    RunSnoc(start, s1, ClaimSerial(0));
    var claim := Claim(FormatInt(1), Some(1), false);
    assert After(start, s2) == World(2, {}, map[0 := Client(Some(claim), 0, 0, {}, false)], {}, 0);
    var s3 := s2 + [ResetAll({}, 1)];
    RunSnoc(start, s2, ResetAll({}, 1));
    assert After(start, s3) == World(1, {}, map[0 := Client(Some(claim.(late := true)), 0, 0, {}, true)], {}, 0);
    var s4 := s3 + [InsertClaim(0)];
    RunSnoc(start, s3, InsertClaim(0));
    ParseFormat(1);
    assert After(start, s4).ids == {FormatInt(1)};
    assert FormatInt(1) in Stale(After(start, s4));
  }

  lemma EmptyRun(start: World)
    ensures Run(start, []) && After(start, []) == start
  {
  }

  lemma RunSnoc(start: World, steps: seq<Step>, step: Step)
    requires Run(start, steps) && Enabled(After(start, steps), step)
    ensures Run(start, steps + [step]) && After(start, steps + [step]) == Apply(After(start, steps), step)
  {
    hide Enabled, Apply;
    assert (steps + [step])[..|steps|] == steps;
  }
}
