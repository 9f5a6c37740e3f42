/** A token bucket with exact arithmetic. Time is in nanoseconds and tokens are counted
    in billionths, so that a rate of r tokens a second refills exactly r units a nanosecond. */
module TokenBucket {
  import opened Decimal
  import opened Wrappers

  const TOKEN := 1_000_000_000
  const SECOND := 1_000_000_000

  const BURST_FACTOR := 2
  const MIN_BURST := 20

  /** The bucket depth for a rate. */
  function Burst(perSecond: int): (b: int)
    ensures b >= MIN_BURST
  {
    var b := Wrap64(perSecond * BURST_FACTOR);
    if b > MIN_BURST then b else MIN_BURST
  }

  /** Two seconds' worth, and never less than twenty. */
  lemma BurstIsTwoSeconds(perSecond: nat)
    requires perSecond < 0x4000_0000_0000_0000
    ensures Burst(perSecond) == if perSecond <= 10 then 20 else 2 * perSecond
  {
    assert Wrap64(perSecond * BURST_FACTOR) == perSecond * BURST_FACTOR;
  }

  datatype Config = Config(rate: nat, burst: nat, ttl: int, maxKeys: nat) {
    ghost predicate Valid() {
      rate >= 1 && burst >= 1 && ttl > 0 && maxKeys >= 1
    }

    function Full(): int { burst * TOKEN }

    /** What refills in `elapsed` nanoseconds. */
    function Refill(elapsed: int): int { elapsed * rate }

    /** A bucket left alone for the TTL has had time to refill completely. */
    ghost predicate TtlRefills() {
      Refill(ttl) >= Full()
    }
  }

  /** `tokens` as of `last`, and when the key was last asked for. */
  datatype Bucket = Bucket(tokens: int, last: int, seen: int)

  function Min(a: int, b: int): int {
    if a < b then a else b
  }

  /** rate.Limiter.advance: the tokens there would be at `now`. */
  function Available(cfg: Config, b: Bucket, now: int): int {
    Min(cfg.Full(), b.tokens + cfg.Refill(if now < b.last then 0 else now - b.last))
  }

  /** The level of a key that may have no bucket: none is as good as a full one. */
  function Level(cfg: Config, b: Option<Bucket>, now: int): int {
    match b
    case Some(bucket) => Available(cfg, bucket, now)
    case None => cfg.Full()
  }

  /** AllowN(now, 1) after the key was seen at `now`: a refusal leaves the tokens as they were. */
  function Spend(cfg: Config, b: Bucket, now: int): (Bucket, bool) {
    var available := Available(cfg, b, now);
    if available >= TOKEN then (Bucket(available - TOKEN, now, now), true)
    else (b.(seen := now), false)
  }

  function NewBucket(cfg: Config, now: int): Bucket {
    Bucket(cfg.Full(), now, now)
  }

  /** A bucket as it can be found at `now` under a clock that does not go back. */
  ghost predicate Sound(cfg: Config, b: Bucket, now: int) {
    0 <= b.tokens <= cfg.Full() && b.last <= b.seen <= now
  }

  lemma RefillAdds(cfg: Config, a: int, b: int)
    ensures cfg.Refill(a) + cfg.Refill(b) == cfg.Refill(a + b)
    ensures cfg.Refill(0) == 0
    ensures a >= 0 ==> cfg.Refill(a) >= 0
  {
  }

  /** Refilling from `s` to `t` only depends on the level at `s`. */
  lemma LevelLater(cfg: Config, b: Option<Bucket>, s: int, t: int)
    requires cfg.Valid() && s <= t && (b.Some? ==> Sound(cfg, b.value, s))
    ensures Level(cfg, b, t) == Min(cfg.Full(), Level(cfg, b, s) + cfg.Refill(t - s))
    ensures 0 <= Level(cfg, b, s) <= Level(cfg, b, t) <= cfg.Full()
  {
    hide Config.Refill;
    RefillAdds(cfg, t - s, 0);
    if b.Some? {
      RefillAdds(cfg, s - b.value.last, t - s);
    }
  }

  /** One second is enough for one token at every rate. */
  lemma SecondRefillsToken(cfg: Config)
    requires cfg.Valid()
    ensures cfg.Refill(SECOND) >= TOKEN && cfg.Full() >= TOKEN
  {
  }

  /** An untouched bucket holds no information once the TTL is up. */
  lemma ExpiredIsFull(cfg: Config, b: Bucket, now: int)
    requires cfg.Valid() && cfg.TtlRefills() && Sound(cfg, b, now) && now - b.seen >= cfg.ttl
    ensures Available(cfg, b, now) == cfg.Full()
  {
    hide Config.Refill;
    var more := now - b.last - cfg.ttl;
    RefillAdds(cfg, more, 0);
    RefillAdds(cfg, cfg.ttl, more);
  }

  lemma SpendLevel(cfg: Config, b: Bucket, now: int)
    requires cfg.Valid() && Sound(cfg, b, now)
    ensures var (b', ok) := Spend(cfg, b, now);
            && Sound(cfg, b', now)
            && ok == (Available(cfg, b, now) >= TOKEN)
            && Available(cfg, b', now) == Available(cfg, b, now) - (if ok then TOKEN else 0)
  {
    hide Config.Refill;
    RefillAdds(cfg, now - b.last, 0);
  }

  /** The default TTL is a minute, and a minute refills the burst of every rate, even of
      one whose burst has overflowed. */
  lemma DefaultTtlRefills(perSecond: int, maxKeys: nat)
    requires 1 <= perSecond < 0x8000_0000_0000_0000
    ensures Burst(perSecond) <= 60 * perSecond
    ensures Config(perSecond, Burst(perSecond), 60 * SECOND, maxKeys).TtlRefills()
  {
    if perSecond * BURST_FACTOR < 0x8000_0000_0000_0000 {
      assert Wrap64(perSecond * BURST_FACTOR) == perSecond * BURST_FACTOR;
    } else {
      assert Wrap64(perSecond * BURST_FACTOR) == perSecond * BURST_FACTOR - 0x1_0000_0000_0000_0000;
    }
  }
}
