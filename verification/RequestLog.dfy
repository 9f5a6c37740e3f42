/** Reading a project's request log by position: the two keyset queries, pages followed
    backwards in time, and the live tail followed forwards. */
module RequestLog {
  import opened Cursors
  import opened Decimal
  import opened JsonQuote
  import opened Wrappers

  const DEFAULT_LIMIT := 50
  const MAX_LIMIT := 500
  const STREAM_BATCH := 100

  function ClampLimit(limit: int): nat {
    if limit <= 0 then DEFAULT_LIMIT else if limit > MAX_LIMIT then MAX_LIMIT else limit
  }

  /** Newest first going down, oldest first going up. */
  predicate Precedes(a: Key, b: Key, up: bool) {
    if up then Less(a, b) else Less(b, a)
  }

  /** The rows a query with this cursor selects; no cursor selects all of them. */
  ghost function Beyond(rows: set<Key>, from: Option<Key>, up: bool): set<Key> {
    set k | k in rows && (from.Some? ==> Precedes(from.value, k, up))
  }

  lemma Trichotomy(a: Key, b: Key, up: bool)
    ensures a == b || Precedes(a, b, up) || Precedes(b, a, up)
    ensures !(Precedes(a, b, up) && Precedes(b, a, up)) && !Precedes(a, a, up)
  {
  }

  lemma {:induction false} FirstExists(s: set<Key>, up: bool)
    requires s != {}
    ensures exists k :: k in s && forall x :: x in s ==> x == k || Precedes(k, x, up)
  {
    var x :| x in s;
    var rest := s - {x};
    var first := x;
    if rest != {} {
      FirstExists(rest, up);
      var k :| k in rest && forall y :: y in rest ==> y == k || Precedes(k, y, up);
      Trichotomy(x, k, up);
      first := if Precedes(x, k, up) then x else k;
    }
    forall y | y in s ensures y == first || Precedes(first, y, up) {
      assert y == x || y in rest;
    }
  }

  ghost function First(s: set<Key>, up: bool): (k: Key)
    requires s != {}
    ensures k in s && forall x :: x in s ==> x == k || Precedes(k, x, up)
  {
    FirstExists(s, up);
    var k :| k in s && forall x :: x in s ==> x == k || Precedes(k, x, up);
    k
  }

  /** `order by (created_at, id) limit n`, from a cursor on. */
  ghost function Select(rows: set<Key>, from: Option<Key>, up: bool, n: nat): (page: seq<Key>)
    ensures |page| <= n
    decreases n
  {
    var beyond := Beyond(rows, from, up);
    if n == 0 || beyond == {} then []
    else
      var k := First(beyond, up);
      [k] + Select(rows, Some(k), up, n - 1)
  }

  ghost predicate InOrder(page: seq<Key>, up: bool) {
    forall i, j :: 0 <= i < j < |page| ==> Precedes(page[i], page[j], up)
  }

  lemma BeyondFirst(rows: set<Key>, from: Option<Key>, up: bool)
    requires Beyond(rows, from, up) != {}
    ensures var k := First(Beyond(rows, from, up), up); Beyond(rows, Some(k), up) == Beyond(rows, from, up) - {k}
  {
  }

  lemma {:induction false} SelectInOrder(rows: set<Key>, from: Option<Key>, up: bool, n: nat)
    ensures var page := Select(rows, from, up, n);
            InOrder(page, up) && forall i :: 0 <= i < |page| ==> page[i] in Beyond(rows, from, up)
    decreases n
  {
    hide Precedes;
    if n > 0 && Beyond(rows, from, up) != {} {
      var k := First(Beyond(rows, from, up), up);
      BeyondFirst(rows, from, up);
      SelectInOrder(rows, Some(k), up, n - 1);
    }
  }

  lemma {:induction false} SelectSize(rows: set<Key>, from: Option<Key>, up: bool, n: nat)
    ensures var size := |Beyond(rows, from, up)|; |Select(rows, from, up, n)| == if size < n then size else n
    decreases n
  {
    hide Precedes, Beyond;
    if n > 0 && Beyond(rows, from, up) != {} {
      BeyondFirst(rows, from, up);
      SelectSize(rows, Some(First(Beyond(rows, from, up), up)), up, n - 1);
    }
  }

  /** A row the query selects is on the page, or comes after the whole page. */
  lemma {:induction false} SelectCovers(rows: set<Key>, from: Option<Key>, up: bool, n: nat, k: Key)
    requires k in Beyond(rows, from, up)
    ensures var page := Select(rows, from, up, n);
            k in page || forall i :: 0 <= i < |page| ==> Precedes(page[i], k, up)
    decreases n
  {
    hide Precedes, Beyond;
    if n > 0 {
      var first := First(Beyond(rows, from, up), up);
      BeyondFirst(rows, from, up);
      if k != first {
        SelectCovers(rows, Some(first), up, n - 1, k);
      }
    }
  }

  // Pages ----------------------------------------------------------------------------------

  datatype Page = Page(items: seq<Key>, next: Option<Key>)

  /** The store's query behind both listings: the limit is clamped, the newest row first. */
  ghost function ExchangesByProject(rows: set<Key>, before: Option<Key>, limit: int): seq<Key> {
    Select(rows, before, false, ClampLimit(limit))
  }

  /** One page: a row more than asked for tells whether there is another. */
  function PageOf(fetched: seq<Key>, limit: nat): Page
    requires limit >= 1
  {
    if |fetched| > limit then Page(fetched[..limit], Some(fetched[limit - 1])) else Page(fetched, None)
  }

  ghost function LogPage(rows: set<Key>, before: Option<Key>, limit: nat): Page
    requires limit >= 1
  {
    PageOf(ExchangesByProject(rows, before, limit + 1), limit)
  }

  method HandleLogList(ghost rows: set<Key>, ghost before: Option<Key>, limit: nat, fetched: seq<Key>) returns (page: Page)
    requires 1 <= limit <= MAX_LIMIT && fetched == ExchangesByProject(rows, before, limit + 1)
    ensures page == LogPage(rows, before, limit)
  {
    hide ExchangesByProject;
    var exchanges := fetched;
    var next: Option<Key> := None;
    if |exchanges| > limit {
      exchanges := exchanges[..limit];
      next := Some(exchanges[|exchanges| - 1]);
    }
    var items: seq<Key> := [];
    for i := 0 to |exchanges|
      invariant items == exchanges[..i]
    {
      items := items + [exchanges[i]];
    }
    assert items == exchanges;
    page := Page(items, next);
  }

  /** There is a next page exactly when the limit leaves room for the one row more and
      the log holds more rows than the page: at the largest limit there never is. */
  lemma NextExactlyWhenMore(rows: set<Key>, before: Option<Key>, limit: nat)
    requires 1 <= limit <= MAX_LIMIT
    ensures LogPage(rows, before, limit).next.Some? <==> limit < 500 && |Beyond(rows, before, false)| > limit
  {
    SelectSize(rows, before, false, ClampLimit(limit + 1));
  }

  /** A page in full: what it shows, what it leaves, and where the next one starts. */
  lemma PageIsExact(rows: set<Key>, before: Option<Key>, limit: nat)
    requires 1 <= limit < MAX_LIMIT
    ensures var page := LogPage(rows, before, limit);
            && InOrder(page.items, false)
            && (forall i :: 0 <= i < |page.items| ==> page.items[i] in Beyond(rows, before, false))
            && (page.next.Some? ==> |page.items| == limit && page.next == Some(page.items[limit - 1]))
            && (forall k :: k in Beyond(rows, before, false) ==>
                  k in page.items || (page.next.Some? && Precedes(page.next.value, k, false)))
  {
    hide Precedes, Beyond, Select;
    var fetched := ExchangesByProject(rows, before, limit + 1);
    SelectInOrder(rows, before, false, limit + 1);
    SelectSize(rows, before, false, limit + 1);
    var page := LogPage(rows, before, limit);
    forall k | k in Beyond(rows, before, false)
      ensures k in page.items || (page.next.Some? && Precedes(page.next.value, k, false))
    {
      SelectCovers(rows, before, false, limit + 1, k);
      if |fetched| <= limit {
        AllSelected(rows, before, false, limit + 1, k);
      }
    }
  }

  /** A page that is not full holds everything there is. */
  lemma {:induction false} AllSelected(rows: set<Key>, from: Option<Key>, up: bool, n: nat, k: Key)
    requires k in Beyond(rows, from, up) && |Select(rows, from, up, n)| < n
    ensures k in Select(rows, from, up, n)
    decreases n
  {
    hide Precedes, Beyond;
    var first := First(Beyond(rows, from, up), up);
    BeyondFirst(rows, from, up);
    if k != first {
      AllSelected(rows, Some(first), up, n - 1, k);
    }
  }

  /** Following `next`: `tables[i]` is the log as the i-th request finds it. */
  ghost function Follow(tables: seq<set<Key>>, before: Option<Key>, limit: nat): (seq<Key>, bool)
    requires limit >= 1
  {
    if tables == [] then ([], false)
    else
      var page := LogPage(tables[0], before, limit);
      if page.next.None? then (page.items, true)
      else
        var (rest, done) := Follow(tables[1..], page.next, limit);
        (page.items + rest, done)
  }

  ghost predicate Growing(tables: seq<set<Key>>) {
    forall i, j :: 0 <= i < j < |tables| ==> tables[i] <= tables[j]
  }

  /** Whatever is inserted between the requests, and wherever, the pages are in strictly
      descending order, so no row comes twice, and once there is no next page every row
      that was there at the start has come. */
  lemma {:induction false} PagesMissNothing(tables: seq<set<Key>>, before: Option<Key>, limit: nat)
    requires 1 <= limit < MAX_LIMIT && Growing(tables)
    ensures var (items, done) := Follow(tables, before, limit);
            && InOrder(items, false)
            && (before.Some? ==> forall i :: 0 <= i < |items| ==> Precedes(before.value, items[i], false))
            && (done ==> forall k :: k in Beyond(tables[0], before, false) ==> k in items)
  {
    hide LogPage;
    if tables != [] {
      var page := LogPage(tables[0], before, limit);
      PageIsExact(tables[0], before, limit);
      if page.next.Some? {
        PagesMissNothing(tables[1..], page.next, limit);
        if |tables| > 1 {
          assert tables[0] <= tables[1];
        }
      }
    }
  }

  /** Rows that were not there at the start are newer than all that were. */
  ghost predicate OnlyNewer(first: set<Key>, tables: seq<set<Key>>) {
    forall i, k, r :: 0 <= i < |tables| && k in tables[i] && k !in first && r in first ==> Less(r, k)
  }

  lemma {:induction false} BeyondLast(rows: set<Key>, from: Option<Key>, up: bool, n: nat)
    requires Select(rows, from, up, n) != []
    ensures var page := Select(rows, from, up, n);
            |Beyond(rows, Some(page[|page| - 1]), up)| == |Beyond(rows, from, up)| - |page|
    decreases n
  {
    hide Precedes, Beyond;
    var first := First(Beyond(rows, from, up), up);
    BeyondFirst(rows, from, up);
    var rest := Select(rows, Some(first), up, n - 1);
    if rest != [] {
      BeyondLast(rows, Some(first), up, n - 1);
      assert Select(rows, from, up, n) == [first] + rest;
    }
  }

  lemma {:induction false} SelectPrefix(rows: set<Key>, from: Option<Key>, up: bool, m: nat, n: nat)
    requires m <= n && m <= |Select(rows, from, up, n)|
    ensures Select(rows, from, up, m) == Select(rows, from, up, n)[..m]
    decreases n
  {
    hide Precedes, Beyond;
    if m > 0 {
      SelectPrefix(rows, Some(First(Beyond(rows, from, up), up)), up, m - 1, n - 1);
    }
  }

  /** The rows left for the next page. */
  lemma NextLeaves(rows: set<Key>, before: Option<Key>, limit: nat)
    requires 1 <= limit < MAX_LIMIT && LogPage(rows, before, limit).next.Some?
    ensures |Beyond(rows, LogPage(rows, before, limit).next, false)| == |Beyond(rows, before, false)| - limit
    ensures LogPage(rows, before, limit).next.value in rows
  {
    hide Select;
    SelectPrefix(rows, before, false, limit, limit + 1);
    BeyondLast(rows, before, false, limit);
    SelectInOrder(rows, before, false, limit + 1);
  }

  /** If only newer rows arrive meanwhile, the pages end, after as many requests as it
      takes, and show the rows there were at the start and no others. */
  lemma {:induction false} PagesAreTheStart(first: set<Key>, tables: seq<set<Key>>, before: Option<Key>, limit: nat)
    requires 1 <= limit < MAX_LIMIT && Growing(tables) && OnlyNewer(first, tables)
    requires tables != [] && first <= tables[0]
    requires if before.None? then tables[0] == first else before.value in first
    requires |tables| * limit >= |Beyond(first, before, false)|
    ensures var (items, done) := Follow(tables, before, limit);
            && done && InOrder(items, false)
            && forall k :: k in items <==> k in Beyond(first, before, false)
  {
    hide LogPage, InOrder;
    assert Beyond(tables[0], before, false) == Beyond(first, before, false);
    var page := LogPage(tables[0], before, limit);
    PageIsExact(tables[0], before, limit);
    PagesMissNothing(tables, before, limit);
    if page.next.Some? {
      NextLeaves(tables[0], before, limit);
      assert page.next.value in Beyond(first, before, false);
      assert Beyond(tables[0], page.next, false) == Beyond(first, page.next, false);
      NextExactlyWhenMore(tables[0], before, limit);
      FewerRequests(|tables|, limit, |Beyond(first, before, false)|);
      PagesAreTheStart(first, tables[1..], page.next, limit);
    }
  }

  lemma FewerRequests(requests: nat, limit: nat, rows: nat)
    requires 1 <= limit && requests * limit >= rows > limit
    ensures requests != 1 && (requests - 1) * limit >= rows - limit
  {
    assert (requests - 1) * limit == requests * limit - limit;
  }

  /** The same, the way a client does it: each `next` travels as text. A text that is not
      a position is refused. */
  ghost function FollowLinks(tables: seq<set<Key>>, before: string, limit: nat): Option<(seq<Key>, bool)>
    requires limit >= 1
    decreases |tables|
  {
    if tables == [] then Some(([], false))
    else
      var cursor := Parse(before);
      if cursor.None? then None
      else
        var page := LogPage(tables[0], if IsZero(cursor.value) then None else Some(cursor.value), limit);
        if page.next.None? then Some((page.items, true))
        else
          var rest := FollowLinks(tables[1..], Print(page.next.value), limit);
          if rest.None? then None else Some((page.items + rest.value.0, rest.value.1))
  }

  /** A position whose text reads back: a time from 1970 on, and an id of 128 bits. */
  ghost predicate Travels(k: Key) {
    0 <= k.at <= MAX_INT64 && k.id < Power16(32)
  }

  /** Links lead where positions do, for rows recorded since 1970. */
  lemma {:induction false} LinksFollow(tables: seq<set<Key>>, before: Option<Key>, limit: nat)
    requires 1 <= limit < MAX_LIMIT && forall i, k :: 0 <= i < |tables| && k in tables[i] ==> Travels(k)
    requires before.Some? ==> Travels(before.value)
    ensures FollowLinks(tables, if before.None? then "" else Print(before.value), limit) == Some(Follow(tables, before, limit))
    decreases |tables|
  {
    hide LogPage, Print, Parse, Power16;
    if tables != [] {
      EmptyIsZero();
      if before.Some? {
        CursorRoundTrip(before.value);
      }
      if LogPage(tables[0], before, limit).next.Some? {
        NextLeaves(tables[0], before, limit);
        LinksFollow(tables[1..], LogPage(tables[0], before, limit).next, limit);
      }
    }
  }

  /** A log read by following links from the first page, while only newer rows arrive:
      after as many requests as it takes it has shown the rows there were at the start, each
      once and in descending order, and no others. */
  lemma LinksShowTheStart(tables: seq<set<Key>>, limit: nat)
    requires 1 <= limit < MAX_LIMIT && tables != [] && |tables| * limit >= |tables[0]|
    requires Growing(tables) && OnlyNewer(tables[0], tables)
    requires forall i, k :: 0 <= i < |tables| && k in tables[i] ==> Travels(k)
    ensures exists items :: FollowLinks(tables, "", limit) == Some((items, true))
                         && NewestFirst(items) && forall k :: k in items <==> k in tables[0]
  {
    hide Travels, Less;
    ByTime();
    LinksFollow(tables, None, limit);
    assert Beyond(tables[0], None, false) == tables[0];
    PagesAreTheStart(tables[0], tables, None, limit);
  }

  /** By descending time, and by descending id where times are equal. */
  ghost predicate NewestFirst(items: seq<Key>) {
    forall i, j :: 0 <= i < j < |items| ==> items[i].at > items[j].at || (items[i].at == items[j].at && items[i].id > items[j].id)
  }

  lemma ByTime()
    ensures forall items :: InOrder(items, false) ==> NewestFirst(items)
  {
  }

  lemma EmptyIsZero()
    ensures Parse("") == Some(ZERO_CURSOR)
  {
  }

  // The live tail ---------------------------------------------------------------------------

  /** A tail beside the log it follows. `due` are the rows whose position was beyond the
      tail's when they were inserted. */
  datatype Tail = Tail(rows: set<Key>, cursor: Key, delivered: seq<Key>, due: set<Key>)

  datatype TailStep = Insert(row: Key) | Poll

  ghost function ExchangesSince(rows: set<Key>, after: Key, limit: int): seq<Key> {
    if IsZero(after) then [] else Select(rows, Some(after), true, ClampLimit(limit))
  }

  /** Where a tail without a position starts: at the newest row, or nowhere. */
  ghost function LatestCursor(rows: set<Key>): Key {
    if rows == {} then ZERO_CURSOR else First(rows, false)
  }

  ghost function StartTail(rows: set<Key>, after: Key): Tail {
    var cursor := if IsZero(after) then LatestCursor(rows) else after;
    Tail(rows, cursor, [], Beyond(rows, Some(cursor), true))
  }

  function Delivering(cursor: Key, delivered: seq<Key>, fetched: seq<Key>): (Key, seq<Key>) {
    if fetched == [] then (cursor, delivered) else (fetched[|fetched| - 1], delivered + fetched)
  }

  ghost function TailApply(t: Tail, step: TailStep): Tail {
    match step
    case Insert(row) =>
      t.(rows := t.rows + {row}, due := if row !in t.rows && Less(t.cursor, row) then t.due + {row} else t.due)
    case Poll =>
      var (cursor, delivered) := Delivering(t.cursor, t.delivered, ExchangesSince(t.rows, t.cursor, STREAM_BATCH));
      t.(cursor := cursor, delivered := delivered)
  }

  /** The state of one open stream. */
  class Stream {
    var cursor: Key
    var delivered: seq<Key>

    constructor (cursor: Key)
      ensures this.cursor == cursor && delivered == []
    {
      this.cursor, delivered := cursor, [];
    }

    /** One poll: every row fetched is sent, in order, and the cursor moves to the last. */
    method OnPoll(ghost rows: set<Key>, fetched: seq<Key>)
      requires fetched == ExchangesSince(rows, cursor, STREAM_BATCH)
      modifies this
      ensures (cursor, delivered)
           == Delivering(old(cursor), old(delivered), ExchangesSince(rows, old(cursor), STREAM_BATCH))
    {
      hide ExchangesSince;
      if |fetched| == 0 {
        return;
      }
      var out: seq<Key> := [];
      for i := 0 to |fetched|
        invariant out == fetched[..i]
      {
        out := out + [fetched[i]];
      }
      assert out == fetched;
      cursor := fetched[|fetched| - 1];
      delivered := delivered + out;
    }
  }

  /** What is due has been delivered or is still ahead; what has been delivered was due,
      came in order, and is behind. */
  ghost predicate TailInv(t: Tail) {
    && InOrder(t.delivered, true)
    && t.due <= t.rows
    && (forall i :: 0 <= i < |t.delivered| ==> t.delivered[i] in t.due && !Less(t.cursor, t.delivered[i]))
    && (forall k :: k in t.due ==> k in t.delivered || Less(t.cursor, k))
    && (forall k :: k in t.rows && Less(t.cursor, k) ==> k in t.due)
  }

  lemma PollKeepsInv(t: Tail)
    requires TailInv(t)
    ensures TailInv(TailApply(t, Poll))
  {
    hide Select;
    var page := ExchangesSince(t.rows, t.cursor, STREAM_BATCH);
    if page != [] {
      SelectInOrder(t.rows, Some(t.cursor), true, STREAM_BATCH);
      forall k | k in t.due ensures k in t.delivered + page || Less(page[|page| - 1], k) {
        if k !in t.delivered {
          SelectCovers(t.rows, Some(t.cursor), true, STREAM_BATCH, k);
        }
      }
    }
  }

  lemma TailKeepsInv(t: Tail, step: TailStep)
    requires TailInv(t)
    ensures TailInv(TailApply(t, step))
  {
    match step
    case Insert(row) =>
    case Poll => PollKeepsInv(t);
  }

  ghost function TailAfter(t: Tail, steps: seq<TailStep>): Tail
    decreases |steps|
  {
    if steps == [] then t else TailAfter(TailApply(t, steps[0]), steps[1..])
  }

  /** Deliveries come in strictly increasing order of position, so never twice, and are
      only ever of rows that were beyond the tail when they were inserted. */
  lemma {:induction false} TailDeliversInOrder(t: Tail, steps: seq<TailStep>)
    requires TailInv(t)
    ensures TailInv(TailAfter(t, steps))
    decreases |steps|
  {
    hide TailInv, TailApply;
    if steps != [] {
      TailKeepsInv(t, steps[0]);
      TailDeliversInOrder(TailApply(t, steps[0]), steps[1..]);
    }
  }

  lemma StartIsSound(rows: set<Key>, after: Key)
    ensures TailInv(StartTail(rows, after))
  {
  }

  // Where a tail starts -----------------------------------------------------------------------

  /** A tail opened from a position owes the rows beyond that position, and no others. */
  lemma StartFromPosition(rows: set<Key>, after: Key)
    requires !IsZero(after)
    ensures var t := StartTail(rows, after);
            t.cursor == after && t.rows == rows && t.delivered == [] && forall k :: k in t.due <==> k in rows && Less(after, k)
  {
  }

  /** One opened without a position owes none of the rows there are. */
  lemma StartOwesNothing(rows: set<Key>)
    ensures StartTail(rows, ZERO_CURSOR).due == {}
    ensures rows != {} ==> StartTail(rows, ZERO_CURSOR).cursor in rows
  {
    var t := StartTail(rows, ZERO_CURSOR);
    forall k | k in rows && rows != {} ensures !Less(t.cursor, k) {
      Trichotomy(t.cursor, k, true);
    }
  }

  /** What holds of a tail that started without a position: the rows there were at the start
      are never due, and once it is at a row it stays at one. */
  ghost predicate FreshTail(t: Tail, first: set<Key>) {
    TailInv(t) && first <= t.rows && t.due !! first && (first != {} ==> t.cursor in t.rows)
  }

  lemma FreshTailStays(t: Tail, first: set<Key>, step: TailStep)
    requires FreshTail(t, first)
    ensures FreshTail(TailApply(t, step), first)
  {
    hide TailInv, Select;
    TailKeepsInv(t, step);
    if step.Poll? {
      SelectInOrder(t.rows, Some(t.cursor), true, STREAM_BATCH);
      PollKeepsDue(t);
    }
  }

  lemma {:induction false} FreshTailRuns(t: Tail, first: set<Key>, steps: seq<TailStep>)
    requires FreshTail(t, first)
    ensures FreshTail(TailAfter(t, steps), first)
    decreases |steps|
  {
    hide FreshTail, TailApply;
    if steps != [] {
      FreshTailStays(t, first, steps[0]);
      FreshTailRuns(TailApply(t, steps[0]), first, steps[1..]);
    }
  }

  /** A tail opened without a position sends what happens next rather than the whole log: in
      every run no row that was there when it was opened is delivered, and, if there was one,
      a row newer than everything recorded so far is due as soon as it is recorded. */
  lemma FreshTailSendsWhatHappensNext(rows: set<Key>, steps: seq<TailStep>, row: Key)
    ensures var t := TailAfter(StartTail(rows, ZERO_CURSOR), steps);
            && (forall k :: k in t.delivered ==> k !in rows)
            && (rows != {} && (forall k :: k in t.rows ==> Less(k, row)) ==> row in TailApply(t, Insert(row)).due)
  {
    hide StartTail, TailAfter;
    var start := StartTail(rows, ZERO_CURSOR);
    StartIsSound(rows, ZERO_CURSOR);
    StartOwesNothing(rows);
    StartRows(rows, ZERO_CURSOR);
    FreshTailRuns(start, rows, steps);
    var t := TailAfter(start, steps);
    assert forall k :: k in t.delivered ==> k in t.due;
    Trichotomy(row, row, true);
  }

  lemma StartRows(rows: set<Key>, after: Key)
    ensures StartTail(rows, after).rows == rows
  {
  }

  /** The rows up to `k` the tail still has to go through. */
  ghost function Waiting(t: Tail, k: Key): set<Key> {
    set r | r in t.rows && Less(t.cursor, r) && !Less(k, r)
  }

  ghost function Polls(steps: seq<TailStep>): nat {
    if steps == [] then 0 else (if steps[0].Poll? then 1 else 0) + Polls(steps[1..])
  }

  lemma WaitingSize(t: Tail, k: Key)
    requires Less(t.cursor, k)
    ensures |Waiting(t, k)| == |Beyond(t.rows, Some(t.cursor), true)| - |Beyond(t.rows, Some(k), true)|
  {
    assert Waiting(t, k) == Beyond(t.rows, Some(t.cursor), true) - Beyond(t.rows, Some(k), true);
    assert Beyond(t.rows, Some(k), true) <= Beyond(t.rows, Some(t.cursor), true);
  }

  /** A poll delivers the row, or a full batch of what comes before it. */
  lemma PollAdvances(t: Tail, k: Key)
    requires TailInv(t) && t.cursor.at > ZERO_AT && k in t.due && k !in t.delivered
    ensures var after := TailApply(t, Poll);
            && after.cursor.at > ZERO_AT
            && (k in after.delivered || |Waiting(after, k)| == |Waiting(t, k)| - 100)
  {
    hide Select, TailInv, Waiting;
    assert Less(t.cursor, k) && k in t.rows by {
      DueIsAhead(t, k);
    }
    var page := ExchangesSince(t.rows, t.cursor, STREAM_BATCH);
    SelectInOrder(t.rows, Some(t.cursor), true, STREAM_BATCH);
    SelectCovers(t.rows, Some(t.cursor), true, STREAM_BATCH, k);
    if |page| < STREAM_BATCH {
      AllSelected(t.rows, Some(t.cursor), true, STREAM_BATCH, k);
    } else if k !in page {
      BeyondLast(t.rows, Some(t.cursor), true, STREAM_BATCH);
      WaitingSize(t, k);
      WaitingSize(TailApply(t, Poll), k);
    }
  }

  lemma DueIsAhead(t: Tail, k: Key)
    requires TailInv(t) && k in t.due && k !in t.delivered
    ensures Less(t.cursor, k) && k in t.rows
  {
  }

  lemma {:induction false} DeliveredStays(t: Tail, steps: seq<TailStep>, k: Key)
    requires k in t.delivered
    ensures k in TailAfter(t, steps).delivered
    decreases |steps|
  {
    hide ExchangesSince;
    if steps != [] {
      DeliveredStays(TailApply(t, steps[0]), steps[1..], k);
    }
  }

  lemma InsertLeavesWaiting(t: Tail, row: Key, k: Key)
    requires TailInv(t) && k in t.due && !Less(row, k)
    ensures Waiting(TailApply(t, Insert(row)), k) == Waiting(t, k) && k in TailApply(t, Insert(row)).due
  {
    Trichotomy(row, k, true);
  }

  /** A row that was beyond the tail when it was inserted is delivered once insertions
      before it have stopped and there have been polls enough, a burst of any size included. */
  lemma {:induction false} TailDelivers(t: Tail, steps: seq<TailStep>, k: Key)
    requires TailInv(t) && t.cursor.at > ZERO_AT && k in t.due
    requires forall i :: 0 <= i < |steps| && steps[i].Insert? ==> !Less(steps[i].row, k)
    requires Polls(steps) * STREAM_BATCH >= |Waiting(t, k)|
    ensures k in TailAfter(t, steps).delivered
    decreases |steps|
  {
    hide TailInv, TailApply, Waiting;
    if k in t.delivered {
      DeliveredStays(t, steps, k);
    } else {
      KIsWaiting(t, k);
      TailKeepsInv(t, steps[0]);
      if steps[0].Poll? {
        PollAdvances(t, k);
        PollKeepsDue(t);
        if k in TailApply(t, Poll).delivered {
          DeliveredStays(TailApply(t, Poll), steps[1..], k);
        } else {
          TailDelivers(TailApply(t, Poll), steps[1..], k);
        }
      } else {
        InsertLeavesWaiting(t, steps[0].row, k);
        InsertKeepsCursor(t, steps[0].row);
        TailDelivers(TailApply(t, steps[0]), steps[1..], k);
      }
    }
  }

  lemma KIsWaiting(t: Tail, k: Key)
    requires TailInv(t) && k in t.due && k !in t.delivered
    ensures |Waiting(t, k)| > 0
  {
    assert k in Waiting(t, k);
  }

  lemma PollKeepsDue(t: Tail)
    ensures TailApply(t, Poll).due == t.due
  {
  }

  lemma InsertKeepsCursor(t: Tail, row: Key)
    ensures TailApply(t, Insert(row)).cursor == t.cursor
  {
  }

  /** A tail opened without a position on an empty log keeps the empty cursor, and never
      delivers anything, whatever is recorded later. On a log with rows it starts from a
      real position. */
  lemma EmptyStartStaysSilent(rows: set<Key>, steps: seq<TailStep>)
    requires forall k :: k in rows ==> k.at > ZERO_AT
    ensures rows == {} ==> TailAfter(StartTail(rows, ZERO_CURSOR), steps).delivered == []
    ensures rows != {} ==> StartTail(rows, ZERO_CURSOR).cursor.at > ZERO_AT
  {
    if rows == {} {
      ZeroStaysSilent(StartTail(rows, ZERO_CURSOR), steps);
    }
  }

  lemma {:induction false} ZeroStaysSilent(t: Tail, steps: seq<TailStep>)
    requires IsZero(t.cursor)
    ensures TailAfter(t, steps).delivered == t.delivered
    decreases |steps|
  {
    if steps != [] {
      ZeroStaysSilent(TailApply(t, steps[0]), steps[1..]);
    }
  }
}
