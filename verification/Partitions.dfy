/** Monthly partitions of the request log: the names that carry their month, the months
    made ahead, and the months dropped behind. */
module Partitions {
  import opened Decimal
  import opened Text
  import opened Wrappers

  const PARTITIONS_AHEAD := 3
  const MIN_RETENTION_MONTHS := 1
  const TABLE := "exchanges"
  const DEFAULT_PARTITION := "exchanges_default"

  /** A month counted from January of year zero; monthStart of a time, and AddDate on it. */
  type Month = int

  function Year(m: Month): int { m / 12 }

  function MonthOfYear(m: Month): nat { m % 12 + 1 }

  function Power10(width: nat): (p: nat)
    ensures p >= 1
  {
    if width == 0 then 1 else 10 * Power10(width - 1)
  }

  function Digits(n: nat, width: nat): (s: string)
    ensures |s| == width
  {
    if width == 0 then "" else Digits(n / 10, width - 1) + [Digit(n % 10)]
  }

  /** %0*d: padded with zeros to the width, sign included, never cut. */
  function Padded(n: int, width: nat): string
    requires width > 0
  {
    if n < 0 then "-" + PaddedNat(-n, width - 1) else PaddedNat(n, width)
  }

  function PaddedNat(n: nat, width: nat): string {
    if n < Power10(width) then Digits(n, width) else FormatNat(n)
  }

  function PartitionName(m: Month): string {
    TABLE + "_" + Padded(Year(m), 4) + "_" + Padded(MonthOfYear(m), 2)
  }

  /** The name read backwards; anything of another shape is not one of ours. */
  function PartitionMonth(name: string): Option<Month> {
    if !(TABLE + "_" <= name) then None else MonthAfterPrefix(name[|TABLE| + 1..])
  }

  function MonthAfterPrefix(rest: string): Option<Month> {
    var parts := Cut(rest, '_');
    if parts.None? then None
    else
      var (year, month) := parts.value;
      var y, m := ParseInt(year), ParseInt(month);
      if y.None? || |year| != 4 then None
      else if m.None? || |month| != 2 || m.value < 1 || m.value > 12 then None
      else Some(12 * y.value + m.value - 1)
  }

  // The name carries its month -----------------------------------------------------------

  lemma {:induction false} DigitsRead(n: nat, width: nat)
    requires n < Power10(width)
    ensures AllDigits(Digits(n, width)) && ValueOf(Digits(n, width)) == n
  {
    if width > 0 {
      DigitsRead(n / 10, width - 1);
      var s := Digits(n, width);
      assert s[..|s| - 1] == Digits(n / 10, width - 1);
    }
  }

  lemma {:induction false} FormatIsLong(n: nat, width: nat)
    requires n >= Power10(width)
    ensures |FormatNat(n)| > width
  {
    if width > 0 {
      FormatIsLong(n / 10, width - 1);
    }
  }

  lemma DigitsParse(s: string)
    requires s != "" && AllDigits(s) && ValueOf(s) <= MAX_INT64
    ensures ParseInt(s) == Some(ValueOf(s))
  {
    hide ValueOf;
    assert IsDigit(s[0]);
  }

  lemma PaddedNatReads(n: nat, width: nat)
    requires 1 <= width <= 4
    ensures AllDigits(PaddedNat(n, width))
    ensures n < Power10(width) ==> |PaddedNat(n, width)| == width && ParseInt(PaddedNat(n, width)) == Some(n)
    ensures n >= Power10(width) ==> |PaddedNat(n, width)| > width
  {
    hide Digits, ValueOf, FormatNat;
    assert Power10(1) == 10 && Power10(2) == 100 && Power10(3) == 1000 && Power10(4) == 10000;
    if n < Power10(width) {
      DigitsRead(n, width);
      DigitsParse(Digits(n, width));
    } else {
      ValueOfFormat(n);
      FormatIsLong(n, width);
    }
  }

  lemma YearReads(y: int)
    ensures '_' !in Padded(y, 4)
    ensures (|Padded(y, 4)| == 4 && ParseInt(Padded(y, 4)).Some?) <==> -999 <= y <= 9999
    ensures -999 <= y <= 9999 ==> ParseInt(Padded(y, 4)) == Some(y)
  {
    hide PaddedNat;
    assert Power10(3) == 1000 && Power10(4) == 10000;
    if y >= 0 {
      PaddedNatReads(y, 4);
    } else {
      PaddedNatReads(-y, 3);
      var digits := PaddedNat(-y, 3);
      assert Padded(y, 4)[1..] == digits;
      if -y < 1000 {
        assert ParseInt(digits) == Some(-y) && IsDigit(digits[0]);
      }
    }
  }

  /** A month is read back from its partition's name exactly when its year takes four
      characters, which every year from 0 to 9999 does. */
  lemma NameCarriesMonth(m: Month)
    ensures PartitionMonth(PartitionName(m)) == Some(m) <==> -999 <= Year(m) <= 9999
    ensures PartitionMonth(PartitionName(m)).Some? ==> PartitionMonth(PartitionName(m)) == Some(m)
  {
    hide Padded, ParseInt;
    var year, month := Padded(Year(m), 4), Padded(MonthOfYear(m), 2);
    var name := PartitionName(m);
    YearReads(Year(m));
    MonthReads(MonthOfYear(m));
    CutFirst(year, '_', month);
    assert year + ['_'] + month == year + "_" + month;
    assert TABLE + "_" <= name && name[|TABLE| + 1..] == year + "_" + month;
  }

  lemma MonthReads(n: nat)
    requires 1 <= n <= 12
    ensures |Padded(n, 2)| == 2 && ParseInt(Padded(n, 2)) == Some(n)
  {
    hide PaddedNat;
    assert Power10(2) == 100;
    PaddedNatReads(n, 2);
  }

  /** Only a name of the shape exchanges_YYYY_MM is taken for a month. */
  lemma OnlyOurNames(name: string)
    requires PartitionMonth(name).Some?
    ensures |name| == 17 && name[..10] == "exchanges_" && name[14] == '_'
    ensures var year, month := ParseInt(name[10..14]), ParseInt(name[15..]);
            year.Some? && month.Some? && 1 <= month.value <= 12
            && PartitionMonth(name) == Some(12 * year.value + month.value - 1)
  {
    hide ParseInt;
    var rest := name[|TABLE| + 1..];
    CutParts(rest, '_');
    var (year, month) := Cut(rest, '_').value;
    assert TABLE + "_" == "exchanges_";
    assert name == "exchanges_" + rest && rest == year + ['_'] + month;
    assert name[10..14] == year && name[15..] == month && name[14] == rest[4];
  }

  /** The default partition is not one of ours. */
  lemma DefaultHasNoMonth()
    ensures PartitionMonth(DEFAULT_PARTITION) == None
  {
    var rest := "default";
    assert DEFAULT_PARTITION[|TABLE| + 1..] == rest;
    CutNothing(rest, '_');
  }

  // Maintenance -------------------------------------------------------------------------------

  /** The months a partition takes rows of: `from` up to, but not including, `to`. The
      default partition takes what no other does. */
  datatype Bounds = Default | Months(from: Month, to: Month)

  type Attached = map<string, Bounds>

  predicate Overlaps(b: Bounds, from: Month, to: Month) {
    b.Months? && b.from < to && from < b.to
  }

  /** `create table if not exists ... partition of`: nothing happens if the name is taken;
      otherwise bounds that overlap another partition's, or rows waiting in the default
      partition, make the statement fail. */
  predicate CanCreate(attached: Attached, waiting: set<Month>, m: Month) {
    || PartitionName(m) in attached
    || (m !in waiting && forall name :: name in attached ==> !Overlaps(attached[name], m, m + 1))
  }

  function CreateMonth(attached: Attached, m: Month): Attached {
    if PartitionName(m) in attached then attached else attached[PartitionName(m) := Months(m, m + 1)]
  }

  /** `count` months from `m` on, or as many as can be created before one cannot. */
  function CreatedFrom(attached: Attached, waiting: set<Month>, m: Month, count: nat): (Attached, bool)
    decreases count
  {
    if count == 0 then (attached, true)
    else if !CanCreate(attached, waiting, m) then (attached, false)
    else CreatedFrom(CreateMonth(attached, m), waiting, m + 1, count - 1)
  }

  method CreatePartitions(attached: Attached, waiting: set<Month>, now: Month, ahead: nat) returns (after: Attached, ok: bool)
    ensures (after, ok) == CreatedFrom(attached, waiting, now, ahead + 1)
  {
    hide PartitionName;
    after := attached;
    var month := now;
    for i := 0 to ahead + 1
      invariant month == now + i
      invariant CreatedFrom(after, waiting, month, ahead + 1 - i) == CreatedFrom(attached, waiting, now, ahead + 1)
    {
      if !CanCreate(after, waiting, month) {
        return after, false;
      }
      after := CreateMonth(after, month);
      month := month + 1;
    }
    ok := true;
  }

  predicate ExpiredName(name: string, cutoff: Month) {
    var m := PartitionMonth(name);
    m.Some? && m.value < cutoff
  }

  function Cutoff(now: Month, keep: int): Month {
    now - ((if keep < MIN_RETENTION_MONTHS then MIN_RETENTION_MONTHS else keep) - 1)
  }

  function Kept(attached: Attached, cutoff: Month): Attached {
    map name | name in attached && !ExpiredName(name, cutoff) :: attached[name]
  }

  /** A partition named for a month from which `keep` months reach up to now, at least the
      current month, or for no month at all. */
  predicate InWindow(name: string, now: Month, keep: int) {
    PartitionMonth(name).Some? ==>
      PartitionMonth(name).value >= now || (keep >= 1 && PartitionMonth(name).value + keep > now)
  }

  lemma WindowIsTheCutoff(name: string, now: Month, keep: int)
    ensures InWindow(name, now, keep) <==> !ExpiredName(name, Cutoff(now, keep))
  {
    hide PartitionMonth;
  }

  method DropExpired(attached: Attached, now: Month, keep: int) returns (after: Attached, dropped: set<string>)
    ensures after == Kept(attached, Cutoff(now, keep))
    ensures forall name :: name in after <==> name in attached && InWindow(name, now, keep)
    ensures forall name :: name in after ==> after[name] == attached[name]
    ensures dropped == attached.Keys - after.Keys
  {
    hide PartitionMonth;
    var keepMonths := if keep < MIN_RETENTION_MONTHS then MIN_RETENTION_MONTHS else keep;
    var cutoff := now - (keepMonths - 1);
    after, dropped := attached, {};
    var names := attached.Keys;
    while names != {}
      invariant names <= attached.Keys
      invariant after == map name | name in attached && (name in names || !ExpiredName(name, cutoff)) :: attached[name]
      invariant dropped == attached.Keys - after.Keys
    {
      var name :| name in names;
      names := names - {name};
      if ExpiredName(name, cutoff) {
        after := after - {name};
        dropped := dropped + {name};
      }
    }
    forall name ensures InWindow(name, now, keep) <==> !ExpiredName(name, cutoff) {
      WindowIsTheCutoff(name, now, keep);
    }
  }

  /** A failure to create leaves the old months alone. */
  function Maintained(attached: Attached, waiting: set<Month>, now: Month, keep: int): (Attached, bool) {
    var (created, ok) := CreatedFrom(attached, waiting, now, PARTITIONS_AHEAD + 1);
    if ok then (Kept(created, Cutoff(now, keep)), true) else (created, false)
  }

  /** The default partition, and otherwise partitions that hold the month they are named for. */
  ghost predicate Monthly(attached: Attached) {
    forall name :: name in attached ==>
      if attached[name].Default? then name == DEFAULT_PARTITION
      else PartitionMonth(name).Some? && attached[name] == Months(PartitionMonth(name).value, PartitionMonth(name).value + 1)
           && name == PartitionName(PartitionMonth(name).value)
  }

  lemma {:induction false} CreatedIs(attached: Attached, waiting: set<Month>, m: Month, count: nat)
    requires Monthly(attached)
    requires forall j :: m <= j < m + count ==> PartitionMonth(PartitionName(j)) == Some(j)
    requires forall j :: m <= j < m + count && PartitionName(j) !in attached ==> j !in waiting
    ensures var (after, ok) := CreatedFrom(attached, waiting, m, count);
            && ok && Monthly(after)
            && (forall name :: name in attached ==> name in after && after[name] == attached[name])
            && (forall name :: name in after && name !in attached ==>
                  PartitionMonth(name).Some? && m <= PartitionMonth(name).value < m + count)
            && (forall j :: m <= j < m + count ==> PartitionName(j) in after)
    decreases count
  {
    hide PartitionName, PartitionMonth, Monthly, CanCreate, CreateMonth;
    if count > 0 {
      CreateOne(attached, waiting, m);
      var next := CreateMonth(attached, m);
      assert PartitionMonth(PartitionName(m)) == Some(m);
      CreatedIs(next, waiting, m + 1, count - 1);
      forall j | m <= j < m + count ensures PartitionName(j) in CreatedFrom(attached, waiting, m, count).0 {
        assert j == m || m + 1 <= j;
      }
    }
  }

  /** A month that is not there can be created unless rows are waiting for it. */
  lemma CreateOne(attached: Attached, waiting: set<Month>, m: Month)
    requires Monthly(attached) && PartitionMonth(PartitionName(m)) == Some(m)
    requires PartitionName(m) !in attached ==> m !in waiting
    ensures CanCreate(attached, waiting, m)
    ensures var next := CreateMonth(attached, m);
            && Monthly(next) && PartitionName(m) in next
            && (forall name :: name in next <==> name in attached || name == PartitionName(m))
            && (forall name :: name in attached ==> next[name] == attached[name])
  {
    hide PartitionName, PartitionMonth;
    DefaultHasNoMonth();
  }

  /** From any set of monthly partitions beside the default, with no rows waiting for a
      month that is to be made: the months from now to three ahead exist, each with its own
      bounds; of what was there or is made, a month v is left exactly if v + keep > now, or if
      it is now or later; whatever is named for no month, the default included, is left, and
      everything left has the bounds it had; and running maintenance again changes nothing. */
  lemma MaintenanceKeepsTheWindow(attached: Attached, waiting: set<Month>, now: Month, keep: int)
    requires Monthly(attached) && DEFAULT_PARTITION in attached && 0 <= Year(now) && Year(now + 3) <= 9999
    requires forall j :: now <= j <= now + 3 && PartitionName(j) !in attached ==> j !in waiting
    ensures var (after, ok) := Maintained(attached, waiting, now, keep);
            && ok && Monthly(after)
            && (forall j :: now <= j <= now + 3 ==> PartitionName(j) in after && after[PartitionName(j)] == Months(j, j + 1))
            && (forall name :: PartitionMonth(name).None? ==> (name in after <==> name in attached))
            && (forall name :: PartitionMonth(name).Some? ==>
                  (var v := PartitionMonth(name).value;
                   name in after <==>
                     && (v >= now || (keep >= 1 && v + keep > now))
                     && (name in attached || (now <= v <= now + 3 && name == PartitionName(v)))))
            && (forall name :: name in attached && name in after ==> after[name] == attached[name])
            && DEFAULT_PARTITION in after
            && Maintained(after, waiting, now, keep) == (after, true)
  {
    hide PartitionName, PartitionMonth, CreatedFrom, Monthly, ExpiredName, Cutoff;
    var count := PARTITIONS_AHEAD + 1;
    forall j | now <= j < now + count ensures PartitionMonth(PartitionName(j)) == Some(j) {
      NameCarriesMonth(j);
    }
    DefaultHasNoMonth();
    CreatedIs(attached, waiting, now, count);
    var created := CreatedFrom(attached, waiting, now, count).0;
    forall name ensures InWindow(name, now, keep) <==> !ExpiredName(name, Cutoff(now, keep)) {
      WindowIsTheCutoff(name, now, keep);
    }
    forall name | name in created && name !in attached
      ensures PartitionMonth(name).Some? && name == PartitionName(PartitionMonth(name).value)
    {
      MonthlyNames(created, name);
    }
    KeptIs(created, now, keep, count);
    AllThere(Kept(created, Cutoff(now, keep)), waiting, now, count);
  }

  lemma MonthlyNames(attached: Attached, name: string)
    requires Monthly(attached) && name in attached
    ensures PartitionMonth(name).Some? ==> name == PartitionName(PartitionMonth(name).value)
  {
    hide PartitionName, PartitionMonth;
    DefaultHasNoMonth();
  }

  lemma KeptIs(created: Attached, now: Month, keep: int, count: nat)
    requires Monthly(created)
    requires forall j :: now <= j < now + count ==> PartitionMonth(PartitionName(j)) == Some(j) && PartitionName(j) in created
    ensures var kept := Kept(created, Cutoff(now, keep));
            && Monthly(kept) && Kept(kept, Cutoff(now, keep)) == kept
            && forall j :: now <= j < now + count ==> PartitionName(j) in kept && kept[PartitionName(j)] == Months(j, j + 1)
  {
    hide PartitionName, PartitionMonth;
    DefaultHasNoMonth();
  }

  lemma {:induction false} AllThere(attached: Attached, waiting: set<Month>, m: Month, count: nat)
    requires forall j :: m <= j < m + count ==> PartitionName(j) in attached
    ensures CreatedFrom(attached, waiting, m, count) == (attached, true)
    decreases count
  {
    hide PartitionName;
    if count > 0 {
      AllThere(attached, waiting, m + 1, count - 1);
    }
  }

  /** Creation succeeds exactly when every month wanted is there or free at the outset,
      and whatever happens it takes nothing away. */
  lemma {:induction false} CreationSucceedsExactlyWhen(attached: Attached, waiting: set<Month>, m: Month, count: nat)
    requires forall j :: m <= j < m + count ==> PartitionMonth(PartitionName(j)) == Some(j)
    ensures CreatedFrom(attached, waiting, m, count).1 <==> forall j :: m <= j < m + count ==> CanCreate(attached, waiting, j)
    ensures forall j :: m <= j < m + count && (forall i :: m <= i <= j ==> CanCreate(attached, waiting, i)) ==>
              PartitionName(j) in CreatedFrom(attached, waiting, m, count).0
    ensures forall name :: name in attached ==>
              name in CreatedFrom(attached, waiting, m, count).0 && CreatedFrom(attached, waiting, m, count).0[name] == attached[name]
    decreases count
  {
    hide PartitionName, PartitionMonth;
    if count > 0 && CanCreate(attached, waiting, m) {
      var next := CreateMonth(attached, m);
      CreationSucceedsExactlyWhen(next, waiting, m + 1, count - 1);
      forall j | m < j < m + count ensures CanCreate(next, waiting, j) <==> CanCreate(attached, waiting, j) {
        assert PartitionMonth(PartitionName(j)) == Some(j) && PartitionMonth(PartitionName(m)) == Some(m);
        if next != attached {
          assert next[PartitionName(m)] == Months(m, m + 1);
          assert forall name :: name in attached ==> next[name] == attached[name];
        }
      }
    }
  }

  /** Retention waits for creation: while one of the coming months cannot be created, no
      month is dropped, however old. */
  lemma BlockedMonthStopsRetention(attached: Attached, waiting: set<Month>, now: Month, keep: int, blocked: Month)
    requires 0 <= Year(now) && Year(now + PARTITIONS_AHEAD) <= 9999
    requires now <= blocked <= now + PARTITIONS_AHEAD && !CanCreate(attached, waiting, blocked)
    ensures var (after, ok) := Maintained(attached, waiting, now, keep);
            !ok && forall name :: name in attached ==> name in after && after[name] == attached[name]
  {
    hide PartitionName, PartitionMonth, CanCreate, CreatedFrom;
    forall j | now <= j < now + PARTITIONS_AHEAD + 1 ensures PartitionMonth(PartitionName(j)) == Some(j) {
      NameCarriesMonth(j);
    }
    CreationSucceedsExactlyWhen(attached, waiting, now, PARTITIONS_AHEAD + 1);
  }
}
