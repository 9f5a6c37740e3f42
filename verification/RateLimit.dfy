/** The keyed limiter: one bucket per key, buckets dropped after the TTL, the table
    capped and, as a last resort, emptied. */
module RateLimit {
  import opened Sets
  import opened TokenBucket
  import opened Wrappers

  const DEFAULT_TTL := 60 * SECOND
  const DEFAULT_MAX_KEYS := 100_000

  datatype State = State(buckets: map<string, Bucket>, cleared: nat)

  const EMPTY := State(map[], 0)

  function Find(buckets: map<string, Bucket>, key: string): Option<Bucket> {
    if key in buckets then Some(buckets[key]) else None
  }

  predicate Expired(cfg: Config, b: Bucket, now: int) {
    now - b.seen >= cfg.ttl
  }

  function Swept(cfg: Config, buckets: map<string, Bucket>, now: int): map<string, Bucket> {
    map key | key in buckets && !Expired(cfg, buckets[key], now) :: buckets[key]
  }

  /** The table once a new key may be added: expired buckets go first, then all of them. */
  function WithRoom(cfg: Config, st: State, now: int): State {
    var kept := Swept(cfg, st.buckets, now);
    if |kept| < cfg.maxKeys then st.(buckets := kept) else State(map[], st.cleared + 1)
  }

  function AllowStep(cfg: Config, st: State, key: string, now: int): (State, bool) {
    var ready := if key !in st.buckets && |st.buckets| >= cfg.maxKeys then WithRoom(cfg, st, now) else st;
    var bucket := if key in ready.buckets then ready.buckets[key] else NewBucket(cfg, now);
    var (spent, ok) := Spend(cfg, bucket, now);
    (ready.(buckets := ready.buckets[key := spent]), ok)
  }

  class Limiter {
    const cfg: Config
    var buckets: map<string, Bucket>
    var cleared: nat

    ghost function View(): State
      reads this
    {
      State(buckets, cleared)
    }

    constructor (cfg: Config)
      ensures this.cfg == cfg && View() == EMPTY
    {
      this.cfg := cfg;
      buckets, cleared := map[], 0;
    }

    /** Spends a token of `key` if there is one. */
    method Allow(key: string, now: int) returns (ok: bool)
      modifies this
      ensures (View(), ok) == AllowStep(cfg, old(View()), key, now)
    {
      if key !in buckets && |buckets| >= cfg.maxKeys {
        MakeRoom(now);
      }
      var bucket := if key in buckets then buckets[key] else NewBucket(cfg, now);
      var (spent, allowed) := Spend(cfg, bucket, now);
      buckets := buckets[key := spent];
      ok := allowed;
    }

    method SweepLocked(now: int) returns (left: nat)
      modifies this`buckets
      ensures buckets == Swept(cfg, old(buckets), now) && left == |buckets|
    {
      var all := buckets;
      var todo := buckets.Keys;
      while todo != {}
        invariant todo <= all.Keys
        invariant buckets == map key | key in all && (key in todo || !Expired(cfg, all[key], now)) :: all[key]
      {
        var key :| key in todo;
        todo := todo - {key};
        if Expired(cfg, all[key], now) {
          buckets := buckets - {key};
        }
      }
      left := |buckets|;
    }

    method MakeRoom(now: int)
      modifies this
      ensures View() == WithRoom(cfg, old(View()), now)
    {
      var left := SweepLocked(now);
      if left < cfg.maxKeys {
        return;
      }
      buckets := map[];
      cleared := cleared + 1;
    }
  }

  /** No limiter for a rate that is not positive; defaults for options that are not set. */
  method New(perSecond: int, ttl: int, maxKeys: int) returns (l: Limiter?)
    ensures perSecond <= 0 <==> l == null
    ensures l != null ==> fresh(l) && l.View() == EMPTY && l.cfg.Valid()
    ensures l != null ==> l.cfg.rate == perSecond && l.cfg.burst == Burst(perSecond)
    ensures l != null ==> l.cfg.ttl == (if ttl <= 0 then 60_000_000_000 else ttl)
    ensures l != null ==> l.cfg.maxKeys == if maxKeys <= 0 then 100_000 else maxKeys
  {
    if perSecond <= 0 {
      return null;
    }
    l := new Limiter(Config(perSecond, Burst(perSecond), if ttl <= 0 then DEFAULT_TTL else ttl,
                            if maxKeys <= 0 then DEFAULT_MAX_KEYS else maxKeys));
  }

  // Runs ------------------------------------------------------------------------------

  datatype Event =
    | Request(key: string, at: int)
    | Sweep(at: int)

  function Step(cfg: Config, st: State, ev: Event): State {
    match ev
    case Request(key, at) => AllowStep(cfg, st, key, at).0
    case Sweep(at) => st.(buckets := Swept(cfg, st.buckets, at))
  }

  function After(cfg: Config, evs: seq<Event>): State {
    if evs == [] then EMPTY else Step(cfg, After(cfg, evs[..|evs| - 1]), evs[|evs| - 1])
  }

  /** Whether event `ev`, met in `st`, is a request of `key` that is served. */
  predicate Serves(cfg: Config, st: State, ev: Event, key: string) {
    ev.Request? && ev.key == key && AllowStep(cfg, st, key, ev.at).1
  }

  /** How many requests of `key` a run serves. */
  function Served(cfg: Config, evs: seq<Event>, key: string): nat {
    if evs == [] then 0
    else
      var before := evs[..|evs| - 1];
      Served(cfg, before, key) + if Serves(cfg, After(cfg, before), evs[|evs| - 1], key) then 1 else 0
  }

  ghost predicate InOrder(evs: seq<Event>) {
    forall i, j :: 0 <= i < j < |evs| ==> evs[i].at <= evs[j].at
  }

  /** The limiter that never drops a bucket, as far as one key can tell. */
  function IdealAfter(cfg: Config, evs: seq<Event>, key: string): Option<Bucket> {
    if evs == [] then None
    else
      var before, ev := IdealAfter(cfg, evs[..|evs| - 1], key), evs[|evs| - 1];
      if ev.Request? && ev.key == key then Some(IdealStep(cfg, before, ev.at).0) else before
  }

  function IdealStep(cfg: Config, before: Option<Bucket>, now: int): (Bucket, bool) {
    Spend(cfg, if before.Some? then before.value else NewBucket(cfg, now), now)
  }

  predicate IdealServes(cfg: Config, before: Option<Bucket>, ev: Event, key: string) {
    ev.Request? && ev.key == key && IdealStep(cfg, before, ev.at).1
  }

  function IdealServed(cfg: Config, evs: seq<Event>, key: string): nat {
    if evs == [] then 0
    else
      var before := evs[..|evs| - 1];
      IdealServed(cfg, before, key) + if IdealServes(cfg, IdealAfter(cfg, before, key), evs[|evs| - 1], key) then 1 else 0
  }

  // One step, seen by one key -----------------------------------------------------------

  ghost predicate SoundTable(cfg: Config, st: State, now: int) {
    forall key :: key in st.buckets ==> Sound(cfg, st.buckets[key], now)
  }

  /** What one event does to the level of one key: a served request takes a token from
      it, and dropping buckets can only raise it, to the full burst. */
  lemma StepLevel(cfg: Config, st: State, ev: Event, key: string)
    requires cfg.Valid() && SoundTable(cfg, st, ev.at)
    ensures SoundTable(cfg, Step(cfg, st, ev), ev.at)
    ensures var before, after := Level(cfg, Find(st.buckets, key), ev.at), Level(cfg, Find(Step(cfg, st, ev).buckets, key), ev.at);
            var spent := if Serves(cfg, st, ev, key) then TOKEN else 0;
            && (after == before - spent || after == cfg.Full())
            && (Step(cfg, st, ev).cleared == st.cleared && cfg.TtlRefills() ==> after == before - spent)
            && (ev.Request? && ev.key == key ==> after == before - spent && (Serves(cfg, st, ev, key) <==> before >= TOKEN))
  {
    hide Config.Refill, Config.TtlRefills, Available, Spend;
    NewBucketIsFull(cfg, ev.at);
    forall b | Sound(cfg, b, ev.at) ensures SpendsAsLevel(cfg, b, ev.at) {
      SpendLevel(cfg, b, ev.at);
    }
    forall b | Sound(cfg, b, ev.at) && cfg.TtlRefills() && Expired(cfg, b, ev.at)
      ensures Available(cfg, b, ev.at) == cfg.Full()
    {
      ExpiredIsFull(cfg, b, ev.at);
    }
  }

  ghost predicate NewIsFull(cfg: Config, now: int) {
    Sound(cfg, NewBucket(cfg, now), now) && Available(cfg, NewBucket(cfg, now), now) == cfg.Full()
  }

  ghost predicate SpendsAsLevel(cfg: Config, b: Bucket, now: int) {
    var (b', ok) := Spend(cfg, b, now);
    && Sound(cfg, b', now)
    && ok == (Available(cfg, b, now) >= TOKEN)
    && Available(cfg, b', now) == Available(cfg, b, now) - (if ok then TOKEN else 0)
  }

  lemma NewBucketIsFull(cfg: Config, now: int)
    ensures NewIsFull(cfg, now)
  {
    RefillAdds(cfg, 0, 0);
  }

  // Whole runs --------------------------------------------------------------------------

  /** `t` is not before any event of the run. */
  ghost predicate UpTo(evs: seq<Event>, t: int) {
    InOrder(evs) && (evs != [] ==> evs[|evs| - 1].at <= t)
  }

  lemma UpToBefore(evs: seq<Event>, t: int)
    requires evs != [] && UpTo(evs, t)
    ensures UpTo(evs[..|evs| - 1], evs[|evs| - 1].at)
  {
  }

  lemma {:induction false} RunIsSound(cfg: Config, evs: seq<Event>, key: string, t: int)
    requires cfg.Valid() && UpTo(evs, t)
    ensures SoundTable(cfg, After(cfg, evs), t)
    ensures var ideal := IdealAfter(cfg, evs, key); ideal.Some? ==> Sound(cfg, ideal.value, t)
  {
    hide Config.Refill, Available, Spend, Step;
    if evs != [] {
      var before, ev := evs[..|evs| - 1], evs[|evs| - 1];
      UpToBefore(evs, t);
      RunIsSound(cfg, before, key, ev.at);
      StepLevel(cfg, After(cfg, before), ev, key);
      IdealStepLevel(cfg, IdealAfter(cfg, before, key), ev.at);
    }
  }

  lemma IdealStepLevel(cfg: Config, before: Option<Bucket>, now: int)
    requires cfg.Valid() && (before.Some? ==> Sound(cfg, before.value, now))
    ensures var (b, ok) := IdealStep(cfg, before, now);
            && Sound(cfg, b, now)
            && ok == (Level(cfg, before, now) >= TOKEN)
            && Level(cfg, Some(b), now) == Level(cfg, before, now) - (if ok then TOKEN else 0)
  {
    hide Available, Spend, Config.Refill;
    NewBucketIsFull(cfg, now);
    SpendLevel(cfg, if before.Some? then before.value else NewBucket(cfg, now), now);
  }

  ghost function RealLevel(cfg: Config, evs: seq<Event>, key: string, t: int): int {
    Level(cfg, Find(After(cfg, evs).buckets, key), t)
  }

  ghost function IdealLevel(cfg: Config, evs: seq<Event>, key: string, t: int): int {
    Level(cfg, IdealAfter(cfg, evs, key), t)
  }

  /** How the last event of a run moves the level of one key, and time after it. */
  lemma LastEvent(cfg: Config, evs: seq<Event>, key: string, t: int)
    requires cfg.Valid() && evs != [] && UpTo(evs, t)
    ensures var before, ev := evs[..|evs| - 1], evs[|evs| - 1];
            var st := After(cfg, before);
            var spent := if Serves(cfg, st, ev, key) then TOKEN else 0;
            && RealLevel(cfg, evs, key, t) == Min(cfg.Full(), RealLevel(cfg, evs, key, ev.at) + cfg.Refill(t - ev.at))
            && 0 <= RealLevel(cfg, evs, key, ev.at) <= RealLevel(cfg, evs, key, t) <= cfg.Full()
            && (RealLevel(cfg, evs, key, ev.at) == RealLevel(cfg, before, key, ev.at) - spent
                || RealLevel(cfg, evs, key, ev.at) == cfg.Full())
            && (After(cfg, evs).cleared == st.cleared && cfg.TtlRefills() ==>
                  RealLevel(cfg, evs, key, ev.at) == RealLevel(cfg, before, key, ev.at) - spent)
            && (ev.Request? && ev.key == key ==>
                  && RealLevel(cfg, evs, key, ev.at) == RealLevel(cfg, before, key, ev.at) - spent
                  && (Serves(cfg, st, ev, key) <==> RealLevel(cfg, before, key, ev.at) >= TOKEN))
            && RealLevel(cfg, before, key, ev.at) <= cfg.Full()
  {
    hide Config.Refill, Config.TtlRefills, Step, Level, Serves;
    var before, ev := evs[..|evs| - 1], evs[|evs| - 1];
    UpToBefore(evs, t);
    RunIsSound(cfg, before, key, ev.at);
    StepLevel(cfg, After(cfg, before), ev, key);
    LevelLater(cfg, Find(After(cfg, evs).buckets, key), ev.at, t);
    LevelLater(cfg, Find(After(cfg, before).buckets, key), ev.at, ev.at);
  }

  lemma LastIdealEvent(cfg: Config, evs: seq<Event>, key: string, t: int)
    requires cfg.Valid() && evs != [] && UpTo(evs, t)
    ensures var before, ev := evs[..|evs| - 1], evs[|evs| - 1];
            var ideal := IdealAfter(cfg, before, key);
            var spent := if IdealServes(cfg, ideal, ev, key) then TOKEN else 0;
            && IdealLevel(cfg, evs, key, t) == Min(cfg.Full(), IdealLevel(cfg, evs, key, ev.at) + cfg.Refill(t - ev.at))
            && IdealLevel(cfg, evs, key, ev.at) == IdealLevel(cfg, before, key, ev.at) - spent
            && (ev.Request? && ev.key == key ==>
                  (IdealServes(cfg, ideal, ev, key) <==> IdealLevel(cfg, before, key, ev.at) >= TOKEN))
            && IdealLevel(cfg, before, key, ev.at) <= cfg.Full()
  {
    hide Config.Refill, Level, IdealStep;
    var before, ev := evs[..|evs| - 1], evs[|evs| - 1];
    UpToBefore(evs, t);
    RunIsSound(cfg, before, key, ev.at);
    IdealStepLevel(cfg, IdealAfter(cfg, before, key), ev.at);
    RunIsSound(cfg, evs, key, ev.at);
    LevelLater(cfg, IdealAfter(cfg, evs, key), ev.at, t);
    LevelLater(cfg, IdealAfter(cfg, before, key), ev.at, ev.at);
  }

  /** The table never holds more than MaxKeys buckets, and the count of clears only grows. */
  lemma {:induction false} TableIsBounded(cfg: Config, evs: seq<Event>)
    requires cfg.Valid()
    ensures |After(cfg, evs).buckets| <= cfg.maxKeys
    ensures evs != [] ==> After(cfg, evs[..|evs| - 1]).cleared <= After(cfg, evs).cleared
  {
    hide Spend;
    if evs != [] {
      var st, ev := After(cfg, evs[..|evs| - 1]), evs[|evs| - 1];
      TableIsBounded(cfg, evs[..|evs| - 1]);
      SweepShrinks(cfg, st.buckets, ev.at);
      if ev.Request? && ev.key in st.buckets {
        var spent := AllowStep(cfg, st, ev.key, ev.at).0.buckets;
        assert spent.Keys == st.buckets.Keys;
        assert |spent| == |spent.Keys| == |st.buckets.Keys|;
      }
    }
  }

  lemma SweepShrinks(cfg: Config, buckets: map<string, Bucket>, now: int)
    ensures |Swept(cfg, buckets, now)| <= |buckets|
  {
    var kept := Swept(cfg, buckets, now);
    assert kept.Keys <= buckets.Keys;
    SubsetSize(kept.Keys, buckets.Keys);
    assert |kept| == |kept.Keys| && |buckets| == |buckets.Keys|;
  }

  lemma StartsFull(cfg: Config, key: string, t: int)
    ensures RealLevel(cfg, [], key, t) == IdealLevel(cfg, [], key, t) == cfg.Full()
  {
  }

  lemma {:induction false} EvictionKeepsLevels(cfg: Config, evs: seq<Event>, key: string, t: int)
    requires cfg.Valid() && cfg.TtlRefills() && UpTo(evs, t)
    requires After(cfg, evs).cleared == 0
    ensures RealLevel(cfg, evs, key, t) == IdealLevel(cfg, evs, key, t)
  {
    hide Config.Refill, Config.TtlRefills, After, Served, IdealAfter, Serves, IdealServes;
    StartsFull(cfg, key, t);
    if evs != [] {
      var before, ev := evs[..|evs| - 1], evs[|evs| - 1];
      UpToBefore(evs, t);
      TableIsBounded(cfg, evs);
      EvictionKeepsLevels(cfg, before, key, ev.at);
      LastEvent(cfg, evs, key, t);
      LastIdealEvent(cfg, evs, key, t);
      ServesOnlyItsKey(cfg, evs, key);
    }
  }

  lemma ServesOnlyItsKey(cfg: Config, evs: seq<Event>, key: string)
    requires evs != []
    ensures var before, ev := evs[..|evs| - 1], evs[|evs| - 1];
            (Serves(cfg, After(cfg, before), ev, key) || IdealServes(cfg, IdealAfter(cfg, before, key), ev, key))
            ==> ev.Request? && ev.key == key
  {
  }

  /** Eviction is invisible: without a clear, every request of a run, whatever the sweeps
      in between, gets the answer of the limiter that never drops a bucket. */
  lemma EvictionIsInvisible(cfg: Config, evs: seq<Event>, key: string, t: int)
    requires cfg.Valid() && cfg.TtlRefills() && UpTo(evs, t)
    requires After(cfg, evs).cleared == 0
    ensures AllowStep(cfg, After(cfg, evs), key, t).1 == IdealStep(cfg, IdealAfter(cfg, evs, key), t).1
  {
    hide Config.Refill, Config.TtlRefills, After, IdealAfter, IdealStep, AllowStep;
    EvictionKeepsLevels(cfg, evs, key, t);
    RunIsSound(cfg, evs, key, t);
    IdealStepLevel(cfg, IdealAfter(cfg, evs, key), t);
    StepLevel(cfg, After(cfg, evs), Request(key, t), key);
  }

  /** Dropping buckets, one at a time or all of them, is only ever lenient: at every point
      of a run a key has been served at least as often as by the limiter that never does,
      and is behind it in tokens by no more than what it was served beyond it. */
  lemma {:induction false} ClearingIsLenient(cfg: Config, evs: seq<Event>, key: string, t: int)
    requires cfg.Valid() && UpTo(evs, t)
    ensures Served(cfg, evs, key) >= IdealServed(cfg, evs, key)
    ensures RealLevel(cfg, evs, key, t) + (Served(cfg, evs, key) - IdealServed(cfg, evs, key)) * TOKEN
            >= IdealLevel(cfg, evs, key, t)
  {
    hide Config.Refill, Config.TtlRefills, After, IdealAfter, Serves, IdealServes;
    StartsFull(cfg, key, t);
    if evs != [] {
      var before, ev := evs[..|evs| - 1], evs[|evs| - 1];
      UpToBefore(evs, t);
      ClearingIsLenient(cfg, before, key, ev.at);
      LastEvent(cfg, evs, key, t);
      LastIdealEvent(cfg, evs, key, t);
      ServesOnlyItsKey(cfg, evs, key);
      RefillAdds(cfg, t - ev.at, 0);
    }
  }

  // When the table is cleared ------------------------------------------------------------

  /** The keys with a bucket seen within the TTL. */
  ghost function Live(cfg: Config, buckets: map<string, Bucket>, at: int): set<string> {
    set key | key in buckets && at - buckets[key].seen < cfg.ttl
  }

  lemma SweptIsLive(cfg: Config, buckets: map<string, Bucket>, at: int)
    ensures Swept(cfg, buckets, at).Keys == Live(cfg, buckets, at)
    ensures |Swept(cfg, buckets, at)| == |Live(cfg, buckets, at)|
  {
    var kept := Swept(cfg, buckets, at);
    assert kept.Keys == Live(cfg, buckets, at);
    assert |kept| == |kept.Keys|;
  }

  /** A request clears the table exactly when its key is new, the table is full, and as many
      of its buckets as fit were seen within the TTL. If it does not, no other bucket seen
      within the TTL is touched; and none at all is dropped unless room had to be made. */
  lemma RequestClearsExactlyWhen(cfg: Config, st: State, key: string, at: int)
    ensures var after, live := AllowStep(cfg, st, key, at).0, Live(cfg, st.buckets, at);
            var full := key !in st.buckets && |st.buckets| >= cfg.maxKeys;
            && after.cleared == st.cleared + (if full && |live| >= cfg.maxKeys then 1 else 0)
            && key in after.buckets && after.buckets[key].seen == at
            && (full && |live| >= cfg.maxKeys ==> after.buckets.Keys == {key})
            && (full && |live| < cfg.maxKeys ==> after.buckets.Keys == live + {key})
            && (!full ==> after.buckets.Keys == st.buckets.Keys + {key})
            && (forall k :: k in after.buckets && k != key ==> k in st.buckets && after.buckets[k] == st.buckets[k])
  {
    hide WithRoom, Available, Live;
    RoomIs(cfg, st, at);
    LiveIsThere(cfg, st.buckets, at);
  }

  /** Room is made by dropping what was not seen within the TTL, or else everything. */
  lemma RoomIs(cfg: Config, st: State, at: int)
    ensures var after, live := WithRoom(cfg, st, at), Live(cfg, st.buckets, at);
            if |live| < cfg.maxKeys then
              && after.cleared == st.cleared && after.buckets.Keys == live
              && forall k :: k in after.buckets ==> k in st.buckets && after.buckets[k] == st.buckets[k]
            else
              after == State(map[], st.cleared + 1)
  {
    hide Swept;
    SweptIsLive(cfg, st.buckets, at);
    SweptKeeps(cfg, st.buckets, at);
  }

  lemma LiveIsThere(cfg: Config, buckets: map<string, Bucket>, at: int)
    ensures Live(cfg, buckets, at) <= buckets.Keys
  {
  }

  lemma SweptKeeps(cfg: Config, buckets: map<string, Bucket>, at: int)
    ensures forall k :: k in Swept(cfg, buckets, at) ==> k in buckets && Swept(cfg, buckets, at)[k] == buckets[k]
  {
  }

  /** A sweep drops exactly the buckets not seen within the TTL and changes nothing else. */
  lemma SweepDropsExactly(cfg: Config, st: State, at: int)
    ensures var after := Step(cfg, st, Sweep(at));
            && after.cleared == st.cleared
            && (forall k :: k in after.buckets <==> k in st.buckets && at - st.buckets[k].seen < cfg.ttl)
            && (forall k :: k in after.buckets ==> after.buckets[k] == st.buckets[k])
  {
  }

  /** The keys asked for in a run within the TTL before `at`. */
  ghost function RecentKeys(cfg: Config, evs: seq<Event>, at: int): set<string> {
    set j | 0 <= j < |evs| && evs[j].Request? && at - evs[j].at < cfg.ttl :: evs[j].key
  }

  /** Whoever asks, the keys asked for within the TTL are no more than the table holds. */
  ghost predicate FewKeys(cfg: Config, evs: seq<Event>) {
    forall i :: 0 <= i < |evs| && evs[i].Request? ==> |RecentKeys(cfg, evs[..i], evs[i].at) + {evs[i].key}| <= cfg.maxKeys
  }

  lemma RecentSnoc(cfg: Config, evs: seq<Event>, at: int)
    requires evs != []
    ensures var before, ev := evs[..|evs| - 1], evs[|evs| - 1];
            RecentKeys(cfg, evs, at)
            == RecentKeys(cfg, before, at) + if ev.Request? && at - ev.at < cfg.ttl then {ev.key} else {}
  {
    var before, ev := evs[..|evs| - 1], evs[|evs| - 1];
    forall k ensures k in RecentKeys(cfg, evs, at)
                     <==> k in RecentKeys(cfg, before, at) || (ev.Request? && at - ev.at < cfg.ttl && k == ev.key)
    {
      assert forall j :: 0 <= j < |before| ==> before[j] == evs[j];
    }
  }

  /** Until the first clear, the buckets seen within the TTL are those of the keys asked for
      within the TTL. */
  lemma {:induction false} LiveAreRecent(cfg: Config, evs: seq<Event>, t: int)
    requires cfg.Valid() && UpTo(evs, t) && After(cfg, evs).cleared == 0
    ensures Live(cfg, After(cfg, evs).buckets, t) == RecentKeys(cfg, evs, t)
  {
    hide After, AllowStep, Live, RecentKeys;
    if evs == [] {
      NothingLive(cfg, t);
    } else {
      var before, ev := evs[..|evs| - 1], evs[|evs| - 1];
      UpToBefore(evs, t);
      UpToLater(before, ev.at, t);
      TableIsBounded(cfg, evs);
      LiveAreRecent(cfg, before, t);
      RecentSnoc(cfg, evs, t);
      AfterSnoc(cfg, evs);
      LiveStep(cfg, After(cfg, before), ev, t);
      var after, live := Live(cfg, After(cfg, evs).buckets, t), Live(cfg, After(cfg, before).buckets, t);
      if ev.Request? && t - ev.at >= cfg.ttl {
        LongAgo(cfg, before, ev, t);
        assert after == after - {ev.key};
      } else if ev.Request? {
        assert after == (after - {ev.key}) + {ev.key};
        assert live + {ev.key} == (live - {ev.key}) + {ev.key};
      }
    }
  }

  lemma AfterSnoc(cfg: Config, evs: seq<Event>)
    requires evs != []
    ensures After(cfg, evs) == Step(cfg, After(cfg, evs[..|evs| - 1]), evs[|evs| - 1])
  {
  }

  lemma UpToLater(evs: seq<Event>, s: int, t: int)
    requires UpTo(evs, s) && s <= t
    ensures UpTo(evs, t)
  {
  }

  lemma NothingLive(cfg: Config, t: int)
    ensures Live(cfg, After(cfg, []).buckets, t) == RecentKeys(cfg, [], t) == {}
  {
  }

  /** What was asked for before an event is not recent once the event is not. */
  lemma LongAgo(cfg: Config, before: seq<Event>, ev: Event, t: int)
    requires UpTo(before, ev.at) && t - ev.at >= cfg.ttl
    ensures RecentKeys(cfg, before, t) == {}
  {
  }

  /** An event that clears nothing makes its key live, and no other key more or less so. */
  lemma LiveStep(cfg: Config, st: State, ev: Event, t: int)
    requires ev.at <= t && Step(cfg, st, ev).cleared == st.cleared
    ensures var after, live := Live(cfg, Step(cfg, st, ev).buckets, t), Live(cfg, st.buckets, t);
            if ev.Sweep? then after == live
            else after - {ev.key} == live - {ev.key} && (ev.key in after <==> t - ev.at < cfg.ttl)
  {
    match ev
    case Sweep(at) => SweepDropsExactly(cfg, st, at);
    case Request(key, at) => LiveRequest(cfg, st, key, at, t);
  }

  lemma LiveRequest(cfg: Config, st: State, key: string, at: int, t: int)
    requires at <= t && AllowStep(cfg, st, key, at).0.cleared == st.cleared
    ensures var after, live := Live(cfg, AllowStep(cfg, st, key, at).0.buckets, t), Live(cfg, st.buckets, t);
            after - {key} == live - {key} && (key in after <==> t - at < cfg.ttl)
  {
    hide AllowStep;
    RequestClearsExactlyWhen(cfg, st, key, at);
  }

  /** A request of a run that has not cleared yet clears exactly when the keys asked for
      within the TTL, its own included, are more than the table holds. */
  lemma RequestFitsExactlyWhen(cfg: Config, before: seq<Event>, key: string, at: int)
    requires cfg.Valid() && UpTo(before, at) && After(cfg, before).cleared == 0
    ensures AllowStep(cfg, After(cfg, before), key, at).0.cleared == 0
            <==> |RecentKeys(cfg, before, at) + {key}| <= cfg.maxKeys
  {
    hide After, AllowStep, RecentKeys;
    var st := After(cfg, before);
    var live := Live(cfg, st.buckets, at);
    TableIsBounded(cfg, before);
    LiveAreRecent(cfg, before, at);
    RequestClearsExactlyWhen(cfg, st, key, at);
    assert |st.buckets| == |st.buckets.Keys|;
    if key in st.buckets {
      assert live + {key} <= st.buckets.Keys;
      SubsetSize(live + {key}, st.buckets.Keys);
    } else {
      assert |live + {key}| == |live| + 1;
      SubsetSize(live, st.buckets.Keys);
    }
  }

  /** A run never clears the table exactly when, at each of its requests, the keys asked for
      within the TTL are no more than the table holds. */
  lemma {:induction false} NeverClearsExactlyWhen(cfg: Config, evs: seq<Event>)
    requires cfg.Valid() && InOrder(evs)
    ensures After(cfg, evs).cleared == 0 <==> FewKeys(cfg, evs)
  {
    hide After, AllowStep, RecentKeys;
    if evs == [] {
      NothingLive(cfg, 0);
      AfterNothing(cfg);
    } else {
      var before, ev := evs[..|evs| - 1], evs[|evs| - 1];
      UpToBefore(evs, ev.at);
      NeverClearsExactlyWhen(cfg, before);
      TableIsBounded(cfg, evs);
      AfterSnoc(cfg, evs);
      FewKeysSnoc(cfg, evs);
      if After(cfg, before).cleared == 0 && ev.Request? {
        RequestFitsExactlyWhen(cfg, before, ev.key, ev.at);
      }
    }
  }

  lemma AfterNothing(cfg: Config)
    ensures After(cfg, []) == EMPTY
  {
  }

  lemma FewKeysSnoc(cfg: Config, evs: seq<Event>)
    requires evs != []
    ensures var before, ev := evs[..|evs| - 1], evs[|evs| - 1];
            FewKeys(cfg, evs)
            <==> FewKeys(cfg, before) && (ev.Request? ==> |RecentKeys(cfg, before, ev.at) + {ev.key}| <= cfg.maxKeys)
  {
    hide RecentKeys;
    var before := evs[..|evs| - 1];
    assert forall i :: 0 <= i < |before| ==> before[..i] == evs[..i] && before[i] == evs[i];
  }

  /** So as long as there are no more keys than the table holds, and whatever is swept,
      every request gets the answer of the limiter that never drops a bucket. */
  lemma FewKeysAreCountedExactly(cfg: Config, evs: seq<Event>, key: string, t: int)
    requires cfg.Valid() && cfg.TtlRefills() && UpTo(evs, t) && FewKeys(cfg, evs)
    ensures AllowStep(cfg, After(cfg, evs), key, t).1 == IdealStep(cfg, IdealAfter(cfg, evs, key), t).1
  {
    hide FewKeys, After, AllowStep, IdealStep, IdealAfter;
    NeverClearsExactlyWhen(cfg, evs);
    EvictionIsInvisible(cfg, evs, key, t);
  }

  // A clear can make a later answer stricter ---------------------------------------------

  /** `n` requests of one key at one instant. */
  function Repeated(key: string, at: int, n: nat): (evs: seq<Event>)
    ensures |evs| == n && forall i :: 0 <= i < n ==> evs[i] == Request(key, at)
  {
    seq(n, _ => Request(key, at))
  }

  lemma RepeatedSnoc(evs: seq<Event>, key: string, at: int, n: nat)
    requires n > 0
    ensures var all := evs + Repeated(key, at, n);
            all[..|all| - 1] == evs + Repeated(key, at, n - 1) && all[|all| - 1] == Request(key, at)
  {
  }

  /** A request of a key that has no bucket: room is made if the table is full. */
  lemma FreshStep(cfg: Config, st: State, key: string, at: int)
    requires cfg.Valid() && key !in st.buckets
    ensures var buckets, spent := AllowStep(cfg, st, key, at).0.buckets, Bucket(cfg.Full() - TOKEN, at, at);
            && Find(buckets, key) == Some(spent)
            && (st.buckets == map[] ==> buckets == map[key := spent])
            && (|st.buckets| < cfg.maxKeys ==> buckets == st.buckets[key := spent])
            && (|Swept(cfg, st.buckets, at)| >= cfg.maxKeys && |st.buckets| >= cfg.maxKeys ==> buckets == map[key := spent])
  {
    hide Config.Refill;
    assert key !in Swept(cfg, st.buckets, at);
    RefillAdds(cfg, 0, 0);
    SecondRefillsToken(cfg);
  }

  /** A second request of a key within the same instant. */
  lemma AgainStep(cfg: Config, st: State, key: string, at: int, tokens: int)
    requires cfg.Valid() && TOKEN <= tokens <= cfg.Full() && Find(st.buckets, key) == Some(Bucket(tokens, at, at))
    ensures AllowStep(cfg, st, key, at).0.buckets == st.buckets[key := Bucket(tokens - TOKEN, at, at)]
  {
    hide Config.Refill;
    RefillAdds(cfg, 0, 0);
  }

  /** A key without a bucket starts with a full one, whatever has to make room for it. */
  lemma {:induction false} FreshKeyDrains(cfg: Config, evs: seq<Event>, key: string, at: int, n: nat)
    requires cfg.Valid() && 1 <= n <= cfg.burst && key !in After(cfg, evs).buckets
    ensures var spent := Bucket(cfg.Full() - n * TOKEN, at, at);
            var buckets := After(cfg, evs + Repeated(key, at, n)).buckets;
            Find(buckets, key) == Some(spent) && (After(cfg, evs).buckets == map[] ==> buckets == map[key := spent])
  {
    hide AllowStep, Config.Full;
    RepeatedSnoc(evs, key, at, n);
    if n == 1 {
      assert evs + Repeated(key, at, 0) == evs;
      FreshStep(cfg, After(cfg, evs), key, at);
    } else {
      FreshKeyDrains(cfg, evs, key, at, n - 1);
      FullHolds(cfg, n);
      AgainStep(cfg, After(cfg, evs + Repeated(key, at, n - 1)), key, at, cfg.Full() - (n - 1) * TOKEN);
    }
  }

  lemma FullHolds(cfg: Config, n: nat)
    requires 1 <= n <= cfg.burst
    ensures TOKEN <= cfg.Full() - (n - 1) * TOKEN <= cfg.Full()
  {
  }

  lemma {:induction false} IdealKeyDrains(cfg: Config, evs: seq<Event>, key: string, at: int, n: nat)
    requires cfg.Valid() && 1 <= n <= cfg.burst && IdealAfter(cfg, evs, key) == None
    ensures IdealAfter(cfg, evs + Repeated(key, at, n), key) == Some(Bucket(cfg.Full() - n * TOKEN, at, at))
  {
    RepeatedSnoc(evs, key, at, n);
    if n == 1 {
      assert evs + Repeated(key, at, 0) == evs;
    } else {
      IdealKeyDrains(cfg, evs, key, at, n - 1);
    }
  }

  lemma EmptyStep(cfg: Config, b: Bucket, at: int)
    requires cfg.Valid() && b.tokens == 0 && b.last <= at && cfg.Refill(at - b.last) < TOKEN
    ensures IdealStep(cfg, Some(b), at) == (b.(seen := at), false)
  {
    hide Config.Refill;
  }

  /** An empty bucket stays empty while not even one token has refilled. */
  lemma {:induction false} IdealKeyWaits(cfg: Config, evs: seq<Event>, key: string, at: int, n: nat, last: int)
    requires cfg.Valid() && last <= at && cfg.Refill(at - last) < TOKEN
    requires IdealAfter(cfg, evs, key).Some? && IdealAfter(cfg, evs, key).value.(seen := at) == Bucket(0, last, at)
    ensures var ideal := IdealAfter(cfg, evs + Repeated(key, at, n), key);
            ideal.Some? && ideal.value.(seen := at) == Bucket(0, last, at)
  {
    hide Config.Refill, IdealStep, Repeated;
    if n == 0 {
      assert evs + Repeated(key, at, 0) == evs;
    } else {
      RepeatedSnoc(evs, key, at, n);
      IdealKeyWaits(cfg, evs, key, at, n - 1, last);
      EmptyStep(cfg, IdealAfter(cfg, evs + Repeated(key, at, n - 1), key).value, at);
    }
  }

  /** The keys of other clients, all different. */
  function OtherKey(i: nat): (key: string)
    ensures |key| == i + 2
  {
    seq(i + 2, _ => 'b')
  }

  function Others(n: nat): (evs: seq<Event>)
    ensures |evs| == n && forall i :: 0 <= i < n ==> evs[i] == Request(OtherKey(i), 0)
  {
    seq(n, i requires 0 <= i < n => Request(OtherKey(i), 0))
  }

  lemma {:induction false} OthersFillTheTable(cfg: Config, evs: seq<Event>, spent: Bucket, n: nat)
    requires cfg.Valid() && n < cfg.maxKeys && spent.seen == 0 && After(cfg, evs).buckets == map["a" := spent]
    ensures var buckets := After(cfg, evs + Others(n)).buckets;
            && |buckets| == n + 1
            && (forall key :: key in buckets ==> |key| <= n + 1 && buckets[key].seen == 0)
  {
    hide AllowStep;
    var all := evs + Others(n);
    if n == 0 {
      assert all == evs;
    } else {
      OthersFillTheTable(cfg, evs, spent, n - 1);
      OthersSnoc(evs, n);
      FreshStep(cfg, After(cfg, evs + Others(n - 1)), OtherKey(n - 1), 0);
    }
  }

  lemma NothingExpires(cfg: Config, buckets: map<string, Bucket>)
    requires cfg.Valid() && forall key :: key in buckets ==> buckets[key].seen == 0
    ensures Swept(cfg, buckets, 0) == buckets
  {
  }

  lemma OthersSnoc(evs: seq<Event>, n: nat)
    requires n > 0
    ensures var all := evs + Others(n);
            all[..|all| - 1] == evs + Others(n - 1) && all[|all| - 1] == Request(OtherKey(n - 1), 0)
  {
  }

  lemma AfterRequest(cfg: Config, evs: seq<Event>, key: string, at: int)
    requires evs != [] && evs[|evs| - 1] == Request(key, at)
    ensures After(cfg, evs) == AllowStep(cfg, After(cfg, evs[..|evs| - 1]), key, at).0
  {
  }

  /** One key more than fits, and the first key's bucket is gone. */
  lemma OneMoreClears(cfg: Config, evs: seq<Event>, spent: Bucket)
    requires cfg.Valid() && spent.seen == 0 && After(cfg, evs).buckets == map["a" := spent]
    ensures "a" !in After(cfg, evs + Others(cfg.maxKeys)).buckets
  {
    hide AllowStep, Swept, Config.Full, After, Others, OtherKey;
    var n := cfg.maxKeys;
    var all := evs + Others(n);
    OthersSnoc(evs, n);
    OthersFillTheTable(cfg, evs, spent, n - 1);
    var st, key := After(cfg, all[..|all| - 1]), OtherKey(n - 1);
    NothingExpires(cfg, st.buckets);
    FreshStep(cfg, st, key, 0);
    AfterRequest(cfg, all, key, 0);
    assert |key| != |"a"|;
  }

  lemma {:induction false} IdealIgnoresOthers(cfg: Config, evs: seq<Event>, n: nat)
    ensures IdealAfter(cfg, evs + Others(n), "a") == IdealAfter(cfg, evs, "a")
  {
    var all := evs + Others(n);
    if n == 0 {
      assert all == evs;
    } else {
      IdealIgnoresOthers(cfg, evs, n - 1);
      OthersSnoc(evs, n);
    }
  }

  /** The last nanosecond at which an emptied bucket still has less than a token. */
  function Wait(cfg: Config): int
    requires cfg.Valid()
  {
    (TOKEN - 1) / cfg.rate
  }

  lemma WaitIsTight(cfg: Config)
    requires cfg.Valid() && cfg.rate < TOKEN
    ensures 1 <= Wait(cfg) && cfg.Refill(Wait(cfg)) < TOKEN <= cfg.Refill(Wait(cfg) + 1) && cfg.Refill(1) < TOKEN
  {
    var q, r := (TOKEN - 1) / cfg.rate, (TOKEN - 1) % cfg.rate;
    assert q * cfg.rate + r == TOKEN - 1;
    assert (q + 1) * cfg.rate == q * cfg.rate + cfg.rate;
  }

  /** A key empties its bucket, others clear the table, and it empties its new one just
      before the old one would have had a token again. */
  ghost function SwapRun(cfg: Config): seq<Event>
    requires cfg.Valid()
  {
    Repeated("a", 0, cfg.burst) + Others(cfg.maxKeys) + Repeated("a", Wait(cfg), cfg.burst)
  }

  lemma SwapRunLevels(cfg: Config)
    requires cfg.Valid() && cfg.rate < TOKEN
    ensures Find(After(cfg, SwapRun(cfg)).buckets, "a") == Some(Bucket(0, Wait(cfg), Wait(cfg)))
    ensures IdealAfter(cfg, SwapRun(cfg), "a") == Some(Bucket(0, 0, Wait(cfg)))
  {
    hide Config.Refill, Wait, After, IdealAfter;
    var first := Repeated("a", 0, cfg.burst);
    WaitIsTight(cfg);
    NothingYet(cfg);
    assert [] + first == first;
    FreshKeyDrains(cfg, [], "a", 0, cfg.burst);
    IdealKeyDrains(cfg, [], "a", 0, cfg.burst);
    OneMoreClears(cfg, first, Bucket(0, 0, 0));
    IdealIgnoresOthers(cfg, first, cfg.maxKeys);
    FreshKeyDrains(cfg, first + Others(cfg.maxKeys), "a", Wait(cfg), cfg.burst);
    IdealKeyWaits(cfg, first + Others(cfg.maxKeys), "a", Wait(cfg), cfg.burst, 0);
    IdealSeen(cfg, SwapRun(cfg), "a");
  }

  lemma NothingYet(cfg: Config)
    ensures After(cfg, []).buckets == map[] && IdealAfter(cfg, [], "a") == None
  {
  }

  lemma IdealSeen(cfg: Config, evs: seq<Event>, key: string)
    requires evs != [] && evs[|evs| - 1].Request? && evs[|evs| - 1].key == key
    ensures IdealAfter(cfg, evs, key).Some? && IdealAfter(cfg, evs, key).value.seen == evs[|evs| - 1].at
  {
  }

  /** Lenient in number, not request by request: at every rate below a token a nanosecond,
      whatever the burst and the size of the table, a cleared key can be refused where the
      limiter that never clears would have served it. */
  lemma AnswersMaySwap(cfg: Config)
    requires cfg.Valid() && cfg.rate < TOKEN
    ensures exists evs, key, t :: UpTo(evs, t)
              && !AllowStep(cfg, After(cfg, evs), key, t).1 && IdealStep(cfg, IdealAfter(cfg, evs, key), t).1
  {
    hide After, IdealAfter, Wait, Config.Refill;
    var evs, t := SwapRun(cfg), Wait(cfg) + 1;
    SwapRunLevels(cfg);
    WaitIsTight(cfg);
    SecondRefillsToken(cfg);
    assert UpTo(evs, t);
    assert !AllowStep(cfg, After(cfg, evs), "a", t).1;
    assert IdealStep(cfg, IdealAfter(cfg, evs, "a"), t).1;
  }

  lemma {:induction false} WindowLevel(cfg: Config, evs: seq<Event>, i: nat, key: string, t: int)
    requires cfg.Valid() && cfg.TtlRefills() && UpTo(evs, t)
    requires i < |evs| && After(cfg, evs[..i]).cleared == After(cfg, evs).cleared
    ensures RealLevel(cfg, evs, key, t) + (Served(cfg, evs, key) - Served(cfg, evs[..i], key)) * TOKEN
            <= cfg.Full() + cfg.Refill(t - evs[i].at)
  {
    hide Config.Refill, Config.TtlRefills, After, Serves;
    var before, ev := evs[..|evs| - 1], evs[|evs| - 1];
    UpToBefore(evs, t);
    LastEvent(cfg, evs, key, t);
    RefillAdds(cfg, ev.at - evs[i].at, t - ev.at);
    if i < |before| {
      assert before[..i] == evs[..i] && before[i] == evs[i];
      ClearsBetween(cfg, evs, i);
      WindowLevel(cfg, before, i, key, ev.at);
    }
  }

  lemma {:induction false} ClearsBetween(cfg: Config, evs: seq<Event>, i: nat)
    requires cfg.Valid() && i < |evs|
    ensures After(cfg, evs[..i]).cleared <= After(cfg, evs[..|evs| - 1]).cleared <= After(cfg, evs).cleared
  {
    hide After;
    TableIsBounded(cfg, evs);
    var before := evs[..|evs| - 1];
    if i < |before| {
      assert before[..i] == evs[..i];
      ClearsBetween(cfg, before, i);
    }
  }

  /** In any window of `seconds` without a clear, sweeps included, one key is served at
      most the burst and what refills in that time. */
  lemma WindowBound(cfg: Config, evs: seq<Event>, i: nat, key: string, seconds: nat)
    requires cfg.Valid() && cfg.TtlRefills() && InOrder(evs)
    requires i < |evs| && After(cfg, evs[..i]).cleared == After(cfg, evs).cleared
    requires evs[|evs| - 1].at - evs[i].at <= seconds * SECOND
    ensures Served(cfg, evs, key) - Served(cfg, evs[..i], key) <= cfg.burst + cfg.rate * seconds
  {
    hide After, Serves, Config.TtlRefills, Served;
    var t := evs[|evs| - 1].at;
    WindowLevel(cfg, evs, i, key, t);
    LastEvent(cfg, evs, key, t);
    WholeSeconds(cfg, t - evs[i].at, seconds);
  }

  lemma WholeSeconds(cfg: Config, elapsed: int, seconds: nat)
    requires elapsed <= seconds * SECOND
    ensures cfg.Refill(elapsed) <= cfg.rate * seconds * TOKEN
  {
    assert elapsed * cfg.rate <= seconds * SECOND * cfg.rate;
  }

  lemma {:induction false} LeftAloneRefills(cfg: Config, evs: seq<Event>, i: nat, key: string, t: int)
    requires cfg.Valid() && UpTo(evs, t) && i < |evs|
    requires forall k :: i < k < |evs| ==> !(evs[k].Request? && evs[k].key == key)
    ensures RealLevel(cfg, evs, key, t) >= Min(cfg.Full(), cfg.Refill(t - evs[i].at))
  {
    hide Config.Refill, Config.TtlRefills, After, Serves;
    var before, ev := evs[..|evs| - 1], evs[|evs| - 1];
    UpToBefore(evs, t);
    LastEvent(cfg, evs, key, t);
    RefillAdds(cfg, ev.at - evs[i].at, t - ev.at);
    RefillAdds(cfg, t - ev.at, 0);
    if i < |before| {
      LeftAloneRefills(cfg, before, i, key, ev.at);
      ServesOnlyItsKey(cfg, evs, key);
    }
  }

  /** Requests of one key at one instant are all served as long as its level lasts. */
  lemma {:induction false} LevelServes(cfg: Config, evs: seq<Event>, key: string, t: int, n: nat)
    requires cfg.Valid() && UpTo(evs, t) && RealLevel(cfg, evs, key, t) >= n * TOKEN
    ensures var all := evs + Repeated(key, t, n);
            && UpTo(all, t) && Served(cfg, all, key) == Served(cfg, evs, key) + n
            && RealLevel(cfg, all, key, t) == RealLevel(cfg, evs, key, t) - n * TOKEN
  {
    hide RealLevel, Serves, Config.Refill, Config.Full, Config.TtlRefills, After;
    var all := evs + Repeated(key, t, n);
    if n == 0 {
      assert all == evs;
    } else {
      LevelServes(cfg, evs, key, t, n - 1);
      RepeatedSnoc(evs, key, t, n);
      UpToSnoc(evs + Repeated(key, t, n - 1), Request(key, t));
      assert all == (evs + Repeated(key, t, n - 1)) + [Request(key, t)];
      LastEvent(cfg, all, key, t);
    }
  }

  lemma UpToSnoc(evs: seq<Event>, ev: Event)
    requires UpTo(evs, ev.at)
    ensures UpTo(evs + [ev], ev.at)
  {
  }

  /** A key left alone for some seconds can then ask as often, all at once, as the rate gives
      in that time, up to the burst, and is served every time. */
  lemma LeftAloneServes(cfg: Config, evs: seq<Event>, i: nat, key: string, t: int, seconds: nat, n: nat)
    requires cfg.Valid() && UpTo(evs, t) && i < |evs| && t >= evs[i].at + seconds * SECOND
    requires forall k :: i < k < |evs| ==> !(evs[k].Request? && evs[k].key == key)
    requires n <= cfg.burst && n <= cfg.rate * seconds
    ensures Served(cfg, evs + Repeated(key, t, n), key) == Served(cfg, evs, key) + n
  {
    hide RealLevel, Served, After;
    LeftAloneRefills(cfg, evs, i, key, t);
    SecondsRefill(cfg, t - evs[i].at, seconds, n);
    LevelServes(cfg, evs, key, t, n);
  }

  lemma SecondsRefill(cfg: Config, elapsed: int, seconds: nat, n: nat)
    requires elapsed >= seconds * SECOND && n <= cfg.burst && n <= cfg.rate * seconds
    ensures Min(cfg.Full(), cfg.Refill(elapsed)) >= n * TOKEN
  {
    assert elapsed * cfg.rate >= seconds * SECOND * cfg.rate;
    assert cfg.rate * seconds * TOKEN >= n * TOKEN;
  }

  /** A key nobody has a bucket for can spend the whole burst at once, and no more. */
  lemma NewKeyServesTheBurst(cfg: Config, evs: seq<Event>, key: string, t: int)
    requires cfg.Valid() && UpTo(evs, t) && key !in After(cfg, evs).buckets
    ensures var all := evs + Repeated(key, t, cfg.burst);
            Served(cfg, all, key) == Served(cfg, evs, key) + cfg.burst && !AllowStep(cfg, After(cfg, all), key, t).1
  {
    hide AllowStep, Served, After, Config.Refill;
    LevelServes(cfg, evs, key, t, cfg.burst);
    var all := evs + Repeated(key, t, cfg.burst);
    RunIsSound(cfg, all, key, t);
    StepLevel(cfg, After(cfg, all), Request(key, t), key);
  }

  /** What Retry-After promises: a key that asks again one second after its last request
      is served, whatever happened to other keys or to the table meanwhile. */
  lemma RetryAfterOneSecond(cfg: Config, evs: seq<Event>, i: nat, key: string, t: int)
    requires cfg.Valid() && UpTo(evs, t) && i < |evs| && t >= evs[i].at + SECOND
    requires forall k :: i < k < |evs| ==> !(evs[k].Request? && evs[k].key == key)
    ensures AllowStep(cfg, After(cfg, evs), key, t).1
  {
    hide Config.Refill, Config.TtlRefills, After, AllowStep;
    LeftAloneRefills(cfg, evs, i, key, t);
    RefillAdds(cfg, SECOND, t - evs[i].at - SECOND);
    RefillAdds(cfg, t - evs[i].at - SECOND, 0);
    SecondRefillsToken(cfg);
    RunIsSound(cfg, evs, key, t);
    StepLevel(cfg, After(cfg, evs), Request(key, t), key);
  }
}
