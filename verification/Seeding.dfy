/** Settling the identifiers of a seed: what it states stays, what it does not state is
    allocated around it, and the counter is left past all of it. */
module Seeding {
  import opened Decimal
  import opened Sets
  import opened Wrappers

  type NumberText = s: string | s != "" witness "0"

  /** A JSON value, as far as identifiers need it. A number keeps its source text;
      `finite` tells whether it fits a float64. */
  datatype Json = Str(text: string) | Num(number: NumberText, finite: bool) | Other(content: int)

  datatype Entry = Null | NotObject | Object(fields: map<string, Json>)

  datatype Strategy = Serial | Uuid

  datatype Doc = Doc(publicId: string, body: map<string, Json>)

  datatype SeedError = NotAnObject(entry: nat) | NotAnIdentifier(entry: nat) | Repeated(id: string)

  /** `Panicked` is the assignment into the nil map a JSON null decodes to. */
  datatype SeedResult = Rejected(error: SeedError) | Panicked | Seeded(docs: seq<Doc>, next: int)

  /** A JSON string or number as the text a URL would carry. */
  function ScalarText(value: Json): (r: Option<string>)
    ensures r.Some? ==> r.value != ""
  {
    match value
    case Str(text) => if text != "" then Some(text) else None
    case Num(number, finite) => if finite then Some(number) else None
    case Other(_) => None
  }

  /** The value written into a document's identifier field. */
  function IdJson(publicId: string): Json {
    var n := ParseInt(publicId);
    if n.Some? && FormatInt(n.value) == publicId && publicId != "" then Num(publicId, true) else Str(publicId)
  }

  /** Reading the identifier back out of the field gives the identifier. */
  lemma ScalarTextOfIdJson(publicId: string)
    ensures ScalarText(IdJson(publicId)) == if publicId == "" then None else Some(publicId)
  {
  }

  /** The identifier is written as a number exactly when it is the usual text of a 64-bit
      integer, and as a string otherwise. */
  lemma NumbersStayNumbers(publicId: string)
    ensures IdJson(publicId).Num? <==> exists n :: MIN_INT64 <= n <= MAX_INT64 && FormatInt(n) == publicId
    ensures IdJson(publicId).Num? ==> IdJson(publicId).number == publicId && IdJson(publicId).finite
    ensures IdJson(publicId).Num? || IdJson(publicId) == Str(publicId)
  {
    hide ParseInt, FormatInt;
    ParseBounds(publicId);
    if n :| MIN_INT64 <= n <= MAX_INT64 && FormatInt(n) == publicId {
      ParseFormat(n);
      FormatIsText(n);
    }
  }

  lemma ParseBounds(s: string)
    ensures ParseInt(s).Some? ==> s != "" && MIN_INT64 <= ParseInt(s).value <= MAX_INT64
  {
    hide ValueOf;
  }

  lemma FormatIsText(n: int)
    ensures FormatInt(n) != ""
  {
  }

  function Stated(entry: Entry, idField: string): Option<string> {
    if entry.Object? && idField in entry.fields then ScalarText(entry.fields[idField]) else None
  }

  function StatedIds(entries: seq<Entry>, idField: string): set<string> {
    set e | e in entries && Stated(e, idField).Some? :: Stated(e, idField).value
  }

  lemma StatedIdsSnoc(entries: seq<Entry>, e: Entry, idField: string)
    ensures StatedIds(entries + [e], idField)
         == StatedIds(entries, idField) + if Stated(e, idField).Some? then {Stated(e, idField).value} else {}
  {
  }

  /** The first entry the seed is refused for. */
  function FirstError(entries: seq<Entry>, idField: string): Option<SeedError> {
    if entries == [] then None
    else
      var n := |entries| - 1;
      var before := FirstError(entries[..n], idField);
      if before.Some? then before else EntryError(entries[n], n, idField, StatedIds(entries[..n], idField))
  }

  function EntryError(entry: Entry, i: nat, idField: string, taken: set<string>): Option<SeedError> {
    if entry.NotObject? then Some(NotAnObject(i))
    else if entry.Null? || idField !in entry.fields then None
    else
      var id := ScalarText(entry.fields[idField]);
      if id.None? then Some(NotAnIdentifier(i))
      else if id.value in taken then Some(Repeated(id.value))
      else None
  }

  /** What of `taken` the counter has not reached yet. */
  ghost function Ahead(taken: set<string>, counter: nat): set<string> {
    set t | t in taken && AllDigits(t) && ValueOf(t) > counter
  }

  lemma AheadShrinks(taken: set<string>, counter: nat)
    requires FormatNat(counter + 1) in taken
    ensures |Ahead(taken, counter + 1)| < |Ahead(taken, counter)|
  {
    ValueOfFormat(counter + 1);
    var a, b := Ahead(taken, counter), Ahead(taken, counter + 1);
    var t := FormatNat(counter + 1);
    assert t in a && t !in b && b <= a;
    ProperSubsetSize(b, a);
  }

  /** The next number after `counter` whose text is not taken. */
  function NextFree(taken: set<string>, counter: nat): (n: nat)
    ensures n > counter && FormatNat(n) !in taken
    ensures forall m :: counter < m < n ==> FormatNat(m) in taken
    decreases |Ahead(taken, counter)|
  {
    if FormatNat(counter + 1) !in taken then counter + 1
    else
      AheadShrinks(taken, counter);
      NextFree(taken, counter + 1)
  }

  method AllocateSeedId(strategy: Strategy, uuid: string, counter: nat, taken: set<string>) returns (id: string, next: nat)
    ensures strategy == Uuid ==> id == uuid && next == counter
    ensures strategy == Serial ==> next == NextFree(taken, counter) && id == FormatInt(next)
  {
    next := counter;
    if strategy == Uuid {
      return uuid, next;
    }
    while true
      invariant NextFree(taken, next) == NextFree(taken, counter)
      decreases |Ahead(taken, next)|
    {
      next := next + 1;
      id := FormatInt(next);
      if id !in taken {
        return;
      }
      AheadShrinks(taken, next - 1);
    }
  }

  /** The counter after the entries have been gone through, stated ones stepped over. */
  function CounterAfter(entries: seq<Entry>, idField: string, stated: set<string>): nat {
    if entries == [] then 0
    else
      var n := |entries| - 1;
      var before := CounterAfter(entries[..n], idField, stated);
      if Stated(entries[n], idField).Some? then before else NextFree(stated, before)
  }

  /** The identifier entry `i` ends up with; `uuid(i)` is what a generator would give it. */
  function SettledId(entries: seq<Entry>, idField: string, strategy: Strategy, uuid: nat -> string, i: nat): string
    requires i < |entries|
  {
    var stated := Stated(entries[i], idField);
    if stated.Some? then stated.value
    else if strategy == Uuid then uuid(i)
    else FormatInt(CounterAfter(entries[..i + 1], idField, StatedIds(entries, idField)))
  }

  function SettledDoc(entries: seq<Entry>, idField: string, strategy: Strategy, uuid: nat -> string, i: nat): Doc
    requires i < |entries| && entries[i].Object?
  {
    var id := SettledId(entries, idField, strategy, uuid, i);
    var fields := entries[i].fields;
    Doc(id, if Stated(entries[i], idField).Some? then fields else fields[idField := IdJson(id)])
  }

  function Settled(entries: seq<Entry>, idField: string, strategy: Strategy, uuid: nat -> string): (docs: seq<Doc>)
    requires forall i :: 0 <= i < |entries| ==> entries[i].Object?
    ensures |docs| == |entries|
    ensures forall i :: 0 <= i < |entries| ==> docs[i] == SettledDoc(entries, idField, strategy, uuid, i)
  {
    seq(|entries|, i requires 0 <= i < |entries| => SettledDoc(entries, idField, strategy, uuid, i))
  }

  function Ids(docs: seq<Doc>): (ids: seq<string>)
    ensures |ids| == |docs| && forall i :: 0 <= i < |docs| ==> ids[i] == docs[i].publicId
  {
    seq(|docs|, i requires 0 <= i < |docs| => docs[i].publicId)
  }

  /** The largest identifier that reads as a 64-bit integer, or zero. */
  function Highest(ids: seq<string>): (h: int)
    ensures 0 <= h <= MAX_INT64
  {
    if ids == [] then 0
    else
      var before, n := Highest(ids[..|ids| - 1]), ParseInt(ids[|ids| - 1]);
      if n.Some? && n.value > before then n.value else before
  }

  method NextSerialAfter(ids: seq<string>) returns (next: int)
    ensures next == Wrap64(Highest(ids) + 1)
  {
    hide ParseInt;
    var highest := 0;
    for i := 0 to |ids|
      invariant highest == Highest(ids[..i])
    {
      assert ids[..i + 1][..i] == ids[..i];
      var n := ParseInt(ids[i]);
      if n.Some? && n.value > highest {
        highest := n.value;
      }
    }
    assert ids[..|ids|] == ids;
    next := Wrap64(highest + 1);
  }

  /** First pass: the identifiers the seed states, or why it is refused. */
  method ReadStated(entries: seq<Entry>, idField: string) returns (error: Option<SeedError>, ids: seq<string>, taken: set<string>)
    ensures error == FirstError(entries, idField)
    ensures error.None? ==> taken == StatedIds(entries, idField) && |ids| == |entries|
    ensures error.None? ==> forall k :: 0 <= k < |entries| ==>
              ids[k] == (var s := Stated(entries[k], idField); if s.Some? then s.value else "")
  {
    hide EntryError, Stated, StatedIds, FirstError;
    ids, taken := [], {};
    NothingSettled(entries, idField);
    for i := 0 to |entries|
      invariant FirstError(entries[..i], idField).None? && taken == StatedIds(entries[..i], idField) && |ids| == i
      invariant forall k :: 0 <= k < i ==>
                  ids[k] == (var s := Stated(entries[k], idField); if s.Some? then s.value else "")
    {
      var entry := entries[i];
      ReadStep(entries, idField, i);
      error := EntryError(entry, i, idField, taken);
      if error.Some? {
        ErrorStays(entries, idField, i + 1);
        return;
      }
      var id := Stated(entry, idField);
      if id.Some? {
        taken := taken + {id.value};
        ids := ids + [id.value];
      } else {
        ids := ids + [""];
      }
    }
    assert entries[..|entries|] == entries;
    error := None;
  }

  lemma NothingSettled(entries: seq<Entry>, idField: string)
    ensures entries[..0] == [] && FirstError([], idField) == None && StatedIds([], idField) == {}
  {
  }

  lemma ReadStep(entries: seq<Entry>, idField: string, i: nat)
    requires i < |entries| && FirstError(entries[..i], idField).None?
    ensures FirstError(entries[..i + 1], idField) == EntryError(entries[i], i, idField, StatedIds(entries[..i], idField))
    ensures StatedIds(entries[..i + 1], idField)
         == StatedIds(entries[..i], idField) + if Stated(entries[i], idField).Some? then {Stated(entries[i], idField).value} else {}
  {
    hide EntryError, Stated, StatedIds;
    assert entries[..i + 1] == entries[..i] + [entries[i]] && entries[..i + 1][..i] == entries[..i];
    StatedIdsSnoc(entries[..i], entries[i], idField);
  }

  lemma {:induction false} ErrorStays(entries: seq<Entry>, idField: string, n: nat)
    requires n <= |entries| && FirstError(entries[..n], idField).Some?
    ensures FirstError(entries, idField) == FirstError(entries[..n], idField)
  {
    if n < |entries| {
      var before := entries[..|entries| - 1];
      assert before[..n] == entries[..n];
      ErrorStays(before, idField, n);
    } else {
      assert entries[..n] == entries;
    }
  }

  /** Numbers above the counter are taken exactly when the seed states them. */
  ghost predicate AgreeAbove(taken: set<string>, stated: set<string>, counter: nat) {
    forall m :: m > counter ==> (FormatNat(m) in taken <==> FormatNat(m) in stated)
  }

  lemma NextFreeAgrees(taken: set<string>, stated: set<string>, counter: nat)
    requires AgreeAbove(taken, stated, counter)
    ensures NextFree(taken, counter) == NextFree(stated, counter)
  {
    var a, b := NextFree(taken, counter), NextFree(stated, counter);
    assert a < b ==> FormatNat(a) in stated;
    assert b < a ==> FormatNat(b) in taken;
  }

  function SeedOutcome(entries: seq<Entry>, idField: string, strategy: Strategy, uuid: nat -> string): SeedResult {
    var error := FirstError(entries, idField);
    if error.Some? then Rejected(error.value)
    else if exists i :: 0 <= i < |entries| && !entries[i].Object? then Panicked
    else
      var docs := Settled(entries, idField, strategy, uuid);
      Seeded(docs, Wrap64(Highest(Ids(docs)) + 1))
  }

  /** What the second pass has settled after `i` entries. */
  ghost predicate Progress(entries: seq<Entry>, idField: string, strategy: Strategy, uuid: nat -> string,
                           docs: seq<Doc>, counter: nat, taken: set<string>)
  {
    var stated := StatedIds(entries, idField);
    && |docs| <= |entries|
    && (forall k :: 0 <= k < |docs| ==> entries[k].Object? && docs[k] == SettledDoc(entries, idField, strategy, uuid, k))
    && (strategy == Serial ==> counter == CounterAfter(entries[..|docs|], idField, stated) && AgreeAbove(taken, stated, counter))
  }

  lemma ProgressStep(entries: seq<Entry>, idField: string, strategy: Strategy, uuid: nat -> string,
                     docs: seq<Doc>, counter: nat, taken: set<string>, id: string, next: nat)
    requires Progress(entries, idField, strategy, uuid, docs, counter, taken)
    requires |docs| < |entries| && entries[|docs|].Object? && Stated(entries[|docs|], idField).None?
    requires strategy == Uuid ==> id == uuid(|docs|)
    requires strategy == Serial ==> next == NextFree(taken, counter) && id == FormatInt(next)
    ensures Progress(entries, idField, strategy, uuid,
                     docs + [Doc(id, entries[|docs|].fields[idField := IdJson(id)])], next, taken + {id})
  {
    hide IdJson, Stated, StatedIds, NextFree, AgreeAbove, FormatInt;
    var i, stated := |docs|, StatedIds(entries, idField);
    assert entries[..i + 1][..i] == entries[..i];
    if strategy == Serial {
      NextFreeAgrees(taken, stated, counter);
      StillAgree(taken, stated, counter, next);
    }
  }

  lemma StillAgree(taken: set<string>, stated: set<string>, counter: nat, next: nat)
    requires AgreeAbove(taken, stated, counter) && next > counter
    ensures AgreeAbove(taken + {FormatInt(next)}, stated, next)
  {
    forall m | m > next ensures FormatNat(m) in taken + {FormatInt(next)} <==> FormatNat(m) in stated {
      ValueOfFormat(m);
      ValueOfFormat(next);
    }
  }

  method SeedDocuments(entries: seq<Entry>, idField: string, strategy: Strategy, uuid: nat -> string) returns (result: SeedResult)
    ensures result == SeedOutcome(entries, idField, strategy, uuid)
  {
    hide FirstError, Stated, StatedIds, SettledDoc, IdJson, Progress;
    var error, ids, taken := ReadStated(entries, idField);
    if error.Some? {
      return Rejected(error.value);
    }
    var counter: nat := 0;
    var docs: seq<Doc> := [];
    Start(entries, idField, strategy, uuid, taken);
    for i := 0 to |entries|
      invariant |docs| == i && Progress(entries, idField, strategy, uuid, docs, counter, taken)
      invariant forall k :: 0 <= k < i ==> entries[k].Object?
    {
      if ids[i] == "" {
        var id: string;
        var next: nat;
        id, next := AllocateSeedId(strategy, uuid(i), counter, taken);
        if !entries[i].Object? {
          return Panicked;
        }
        ProgressStep(entries, idField, strategy, uuid, docs, counter, taken, id, next);
        docs := docs + [Doc(id, entries[i].fields[idField := IdJson(id)])];
        counter, taken := next, taken + {id};
      } else {
        StatedStep(entries, idField, strategy, uuid, docs, counter, taken);
        docs := docs + [Doc(ids[i], entries[i].fields)];
      }
    }
    assert docs == Settled(entries, idField, strategy, uuid) by {
      Finished(entries, idField, strategy, uuid, docs, counter, taken);
    }
    var next := NextSerialAfter(Ids(docs));
    result := Seeded(docs, next);
  }

  lemma Start(entries: seq<Entry>, idField: string, strategy: Strategy, uuid: nat -> string, taken: set<string>)
    requires taken == StatedIds(entries, idField)
    ensures Progress(entries, idField, strategy, uuid, [], 0, taken)
    ensures forall e :: Stated(e, idField).Some? ==> e.Object? && Stated(e, idField).value != ""
  {
  }

  lemma StatedStep(entries: seq<Entry>, idField: string, strategy: Strategy, uuid: nat -> string,
                   docs: seq<Doc>, counter: nat, taken: set<string>)
    requires Progress(entries, idField, strategy, uuid, docs, counter, taken)
    requires |docs| < |entries| && Stated(entries[|docs|], idField).Some?
    ensures var entry := entries[|docs|];
            Progress(entries, idField, strategy, uuid, docs + [Doc(Stated(entry, idField).value, entry.fields)], counter, taken)
  {
    hide StatedIds, IdJson;
    assert entries[..|docs| + 1][..|docs|] == entries[..|docs|];
  }

  lemma Finished(entries: seq<Entry>, idField: string, strategy: Strategy, uuid: nat -> string,
                 docs: seq<Doc>, counter: nat, taken: set<string>)
    requires Progress(entries, idField, strategy, uuid, docs, counter, taken) && |docs| == |entries|
    ensures (forall i :: 0 <= i < |entries| ==> entries[i].Object?) && docs == Settled(entries, idField, strategy, uuid)
  {
  }

  // What a settled seed promises ---------------------------------------------------------

  /** The seed panics exactly when nothing refuses it and it holds a JSON null. */
  lemma PanicsExactlyOnNull(entries: seq<Entry>, idField: string, strategy: Strategy, uuid: nat -> string)
    ensures SeedOutcome(entries, idField, strategy, uuid).Panicked? <==> FirstError(entries, idField).None? && Null in entries
  {
    if FirstError(entries, idField).None? {
      AcceptedEntries(entries, idField);
      if Null in entries {
        var i :| 0 <= i < |entries| && entries[i] == Null;
        assert !entries[i].Object?;
      }
    }
  }

  /** The shortest such seed. */
  lemma NullPanics(idField: string, strategy: Strategy, uuid: nat -> string)
    ensures SeedOutcome([Null], idField, strategy, uuid) == Panicked
  {
    hide FirstError;
    assert FirstError([Null], idField) == EntryError(Null, 0, idField, StatedIds([], idField)) by {
      FirstErrorOfOne(Null, idField);
    }
    assert ![Null][0].Object?;
  }

  lemma FirstErrorOfOne(entry: Entry, idField: string)
    ensures FirstError([entry], idField) == EntryError(entry, 0, idField, {})
    ensures StatedIds([], idField) == {}
  {
    assert [entry][..0] == [];
  }

  /** An accepted seed holds objects and nulls only, its stated identifiers are text, and
      no two entries share one. */
  lemma {:induction false} AcceptedEntries(entries: seq<Entry>, idField: string)
    requires FirstError(entries, idField).None?
    ensures forall i :: 0 <= i < |entries| ==>
              && !entries[i].NotObject?
              && (entries[i].Object? && idField in entries[i].fields ==> Stated(entries[i], idField).Some?)
    ensures forall i, j :: 0 <= i < j < |entries| && Stated(entries[i], idField).Some? ==>
              Stated(entries[i], idField) != Stated(entries[j], idField)
  {
    hide ScalarText;
    if entries != [] {
      var n := |entries| - 1;
      AcceptedEntries(entries[..n], idField);
      forall i | 0 <= i < n && Stated(entries[i], idField).Some?
        ensures Stated(entries[i], idField) != Stated(entries[n], idField)
      {
        assert entries[i] == entries[..n][i] && entries[i] in entries[..n];
        assert Stated(entries[i], idField).value in StatedIds(entries[..n], idField);
      }
    }
  }

  /** A string that is not empty, or a number within the range of a float64. */
  predicate IsIdentifier(value: Json) {
    match value
    case Str(text) => text != ""
    case Num(_, finite) => finite
    case Other(_) => false
  }

  predicate StatesField(entry: Entry, idField: string) {
    entry.Object? && idField in entry.fields
  }

  /** The text of a string or of a number. */
  function IdentifierText(value: Json): string {
    match value
    case Str(text) => text
    case Num(number, _) => number
    case Other(_) => ""
  }

  /** `entries[n]` is no object, states no identifier where it should, or repeats one. */
  ghost predicate Offends(entries: seq<Entry>, idField: string, n: nat)
    requires n < |entries|
  {
    || entries[n].NotObject?
    || (StatesField(entries[n], idField) && !IsIdentifier(entries[n].fields[idField]))
    || (StatesField(entries[n], idField)
        && exists j :: 0 <= j < n && StatesField(entries[j], idField)
                       && IdentifierText(entries[j].fields[idField]) == IdentifierText(entries[n].fields[idField]))
  }

  /** The reason an entry that offends is refused for. */
  function Reason(entries: seq<Entry>, idField: string, n: nat): SeedError
    requires n < |entries| && (entries[n].NotObject? || StatesField(entries[n], idField))
  {
    if entries[n].NotObject? then NotAnObject(n)
    else if !IsIdentifier(entries[n].fields[idField]) then NotAnIdentifier(n)
    else Repeated(IdentifierText(entries[n].fields[idField]))
  }

  /** The first entry that offends. */
  ghost predicate FirstOffender(entries: seq<Entry>, idField: string, n: nat) {
    && n < |entries| && Offends(entries, idField, n)
    && (entries[n].NotObject? || StatesField(entries[n], idField))
    && forall m :: 0 <= m < n ==> !Offends(entries, idField, m)
  }

  /** A seed is accepted exactly when each entry is an object or null, what is stated for an
      identifier is one, and no two entries state the same; and it is refused for the first
      entry that offends, with the reason that applies to it. */
  lemma {:induction false} AcceptedExactlyWhen(entries: seq<Entry>, idField: string)
    ensures FirstError(entries, idField).None? <==> forall n :: 0 <= n < |entries| ==> !Offends(entries, idField, n)
    ensures FirstError(entries, idField).Some? ==>
              exists n :: FirstOffender(entries, idField, n) && FirstError(entries, idField).value == Reason(entries, idField, n)
  {
    hide Reason, EntryError, Offends;
    if entries != [] {
      var n := |entries| - 1;
      var before := entries[..n];
      AcceptedExactlyWhen(before, idField);
      forall m | 0 <= m < n ensures Offends(before, idField, m) <==> Offends(entries, idField, m) {
        OffendsBefore(entries, idField, m, n);
      }
      if FirstError(before, idField).None? {
        EntryErrorIs(entries, idField, n);
        if Offends(entries, idField, n) {
          OffenderStates(entries, idField, n);
          assert FirstOffender(entries, idField, n);
        }
      } else {
        var k :| FirstOffender(before, idField, k) && FirstError(before, idField).value == Reason(before, idField, k);
        assert FirstOffender(entries, idField, k);
        SameReason(entries, idField, k, n);
      }
    }
  }

  lemma OffenderStates(entries: seq<Entry>, idField: string, n: nat)
    requires n < |entries| && Offends(entries, idField, n)
    ensures entries[n].NotObject? || StatesField(entries[n], idField)
  {
  }

  lemma SameReason(entries: seq<Entry>, idField: string, m: nat, n: nat)
    requires m < n <= |entries| && (entries[m].NotObject? || StatesField(entries[m], idField))
    ensures Reason(entries[..n], idField, m) == Reason(entries, idField, m)
  {
  }

  lemma OffendsBefore(entries: seq<Entry>, idField: string, m: nat, n: nat)
    requires m < n <= |entries|
    ensures Offends(entries[..n], idField, m) <==> Offends(entries, idField, m)
  {
    assert forall j :: 0 <= j < n ==> entries[..n][j] == entries[j];
  }

  lemma EntryErrorIs(entries: seq<Entry>, idField: string, n: nat)
    requires n < |entries| && FirstError(entries[..n], idField).None?
    ensures EntryError(entries[n], n, idField, StatedIds(entries[..n], idField))
         == if !Offends(entries, idField, n) then None else (OffenderStates(entries, idField, n); Some(Reason(entries, idField, n)))
  {
    hide FirstError;
    AcceptedEntries(entries[..n], idField);
    if StatesField(entries[n], idField) {
      StatedBefore(entries, idField, n, IdentifierText(entries[n].fields[idField]));
    }
  }

  lemma StatedBefore(entries: seq<Entry>, idField: string, n: nat, text: string)
    requires n < |entries| && FirstError(entries[..n], idField).None?
    ensures text in StatedIds(entries[..n], idField)
            <==> exists j :: 0 <= j < n && StatesField(entries[j], idField) && IdentifierText(entries[j].fields[idField]) == text
  {
    hide FirstError;
    var before := entries[..n];
    AcceptedEntries(before, idField);
    if text in StatedIds(before, idField) {
      var e :| e in before && Stated(e, idField) == Some(text);
      var j :| 0 <= j < n && before[j] == e;
      assert StatesField(entries[j], idField);
    }
    if j :| 0 <= j < n && StatesField(entries[j], idField) && IdentifierText(entries[j].fields[idField]) == text {
      assert before[j] in before && Stated(before[j], idField).Some?;
    }
  }

  /** Stated identifiers stay where they are, with their documents as they were; the
      others gain their identifier, readable back out of the document, and nothing else. */
  lemma DocumentsCarryTheirIds(entries: seq<Entry>, idField: string, strategy: Strategy, uuid: nat -> string, i: nat)
    requires i < |entries| && SeedOutcome(entries, idField, strategy, uuid).Seeded?
    requires strategy == Uuid ==> uuid(i) != ""
    ensures entries[i].Object?
    ensures var doc := SeedOutcome(entries, idField, strategy, uuid).docs[i];
            && idField in doc.body && ScalarText(doc.body[idField]) == Some(doc.publicId)
            && (idField in entries[i].fields ==> doc.body == entries[i].fields)
            && doc.body - {idField} == entries[i].fields - {idField}
  {
    AcceptedEntries(entries, idField);
    var id := SettledId(entries, idField, strategy, uuid, i);
    ScalarTextOfIdJson(id);
  }

  ghost function Unstated(entries: seq<Entry>, idField: string): nat {
    if entries == [] then 0
    else Unstated(entries[..|entries| - 1], idField) + if Stated(entries[|entries| - 1], idField).Some? then 0 else 1
  }

  /** The counter only moves past numbers that are stated or that it has handed out. */
  lemma {:induction false} CounterCovers(entries: seq<Entry>, idField: string, stated: set<string>, k: nat, m: nat)
    requires k <= |entries| && 1 <= m <= CounterAfter(entries[..k], idField, stated)
    ensures FormatNat(m) in stated
         || exists j :: 0 <= j < k && Stated(entries[j], idField).None? && CounterAfter(entries[..j + 1], idField, stated) == m
  {
    hide Stated;
    if k > 0 {
      assert entries[..k][..k - 1] == entries[..k - 1];
      if m <= CounterAfter(entries[..k - 1], idField, stated) {
        CounterCovers(entries, idField, stated, k - 1, m);
      } else if m == CounterAfter(entries[..k], idField, stated) {
        assert Stated(entries[k - 1], idField).None?;
      }
    }
  }

  /** One entry moves the counter on if it states nothing, and not at all otherwise. */
  lemma CounterStep(entries: seq<Entry>, idField: string, stated: set<string>, k: nat)
    requires 1 <= k <= |entries|
    ensures var before, after := CounterAfter(entries[..k - 1], idField, stated), CounterAfter(entries[..k], idField, stated);
            if Stated(entries[k - 1], idField).Some? then after == before else before < after
  {
    hide Stated;
    assert entries[..k][..k - 1] == entries[..k - 1];
  }

  lemma {:induction false} CounterGrows(entries: seq<Entry>, idField: string, stated: set<string>, i: nat, k: nat)
    requires i <= k <= |entries|
    ensures CounterAfter(entries[..i], idField, stated) <= CounterAfter(entries[..k], idField, stated)
  {
    hide CounterAfter;
    if i < k {
      CounterGrows(entries, idField, stated, i, k - 1);
      CounterStep(entries, idField, stated, k);
    }
  }

  /** Under `serial` the entries that state nothing get, in order, the smallest positive
      integers the seed does not state. */
  lemma AllocatesSmallestUnstated(entries: seq<Entry>, idField: string, uuid: nat -> string, i: nat)
    requires i < |entries| && Stated(entries[i], idField).None?
    ensures var stated, n := StatedIds(entries, idField), CounterAfter(entries[..i + 1], idField, StatedIds(entries, idField));
            && n >= 1 && SettledId(entries, idField, Serial, uuid, i) == FormatInt(n) && FormatInt(n) !in stated
            && forall m :: 1 <= m < n ==>
                 || FormatInt(m) in stated
                 || exists j :: 0 <= j < i && Stated(entries[j], idField).None?
                                && SettledId(entries, idField, Serial, uuid, j) == FormatInt(m)
  {
    hide Stated, StatedIds;
    var stated := StatedIds(entries, idField);
    assert entries[..i + 1][..i] == entries[..i];
    var n := CounterAfter(entries[..i + 1], idField, stated);
    forall m | 1 <= m < n && FormatInt(m) !in stated
      ensures exists j :: 0 <= j < i && Stated(entries[j], idField).None?
                          && SettledId(entries, idField, Serial, uuid, j) == FormatInt(m)
    {
      CounterCovers(entries, idField, stated, i, m);
      var j :| 0 <= j < i && Stated(entries[j], idField).None? && CounterAfter(entries[..j + 1], idField, stated) == m;
      assert SettledId(entries, idField, Serial, uuid, j) == FormatInt(m);
    }
  }

  lemma AllocatedDiffer(entries: seq<Entry>, idField: string, uuid: nat -> string, i: nat, j: nat)
    requires i < j < |entries| && Stated(entries[i], idField).None? && Stated(entries[j], idField).None?
    ensures SettledId(entries, idField, Serial, uuid, i) != SettledId(entries, idField, Serial, uuid, j)
  {
    hide Stated, StatedIds, CounterAfter, FormatInt;
    var stated := StatedIds(entries, idField);
    CounterGrows(entries, idField, stated, i + 1, j);
    CounterStep(entries, idField, stated, j + 1);
    FormatsDiffer(CounterAfter(entries[..i + 1], idField, stated), CounterAfter(entries[..j + 1], idField, stated));
  }

  lemma FormatsDiffer(a: nat, b: nat)
    requires a != b
    ensures FormatInt(a) != FormatInt(b)
  {
    hide FormatNat, ValueOf;
    ValueOfFormat(a);
    ValueOfFormat(b);
  }

  lemma StatedIsKnown(entries: seq<Entry>, idField: string, i: nat)
    requires i < |entries| && Stated(entries[i], idField).Some?
    ensures Stated(entries[i], idField).value in StatedIds(entries, idField)
  {
    assert entries[i] in entries;
  }

  /** A generator that never repeats itself and never hits what the seed states. */
  ghost predicate FreshUuids(entries: seq<Entry>, idField: string, uuid: nat -> string) {
    && (forall k, l :: 0 <= k < l < |entries| ==> uuid(k) != uuid(l))
    && (forall k :: 0 <= k < |entries| ==> uuid(k) !in StatedIds(entries, idField))
  }

  /** Every document of a seeded collection has an identifier of its own. */
  lemma SettledIdsDiffer(entries: seq<Entry>, idField: string, strategy: Strategy, uuid: nat -> string, i: nat, j: nat)
    requires i < j < |entries| && FirstError(entries, idField).None?
    requires strategy == Uuid ==> FreshUuids(entries, idField, uuid)
    ensures SettledId(entries, idField, strategy, uuid, i) != SettledId(entries, idField, strategy, uuid, j)
  {
    hide Stated, StatedIds, CounterAfter, FirstError;
    AcceptedEntries(entries, idField);
    if Stated(entries[i], idField).Some? {
      StatedIsKnown(entries, idField, i);
    } else if strategy == Serial {
      AllocatesSmallestUnstated(entries, idField, uuid, i);
    }
    if Stated(entries[j], idField).Some? {
      StatedIsKnown(entries, idField, j);
    } else if strategy == Serial {
      AllocatesSmallestUnstated(entries, idField, uuid, j);
      if Stated(entries[i], idField).None? {
        AllocatedDiffer(entries, idField, uuid, i, j);
      }
    }
  }

  lemma {:induction false} NextFreeSpends(taken: set<string>, counter: nat)
    ensures NextFree(taken, counter) + |Ahead(taken, NextFree(taken, counter))| <= counter + 1 + |Ahead(taken, counter)|
    decreases |Ahead(taken, counter)|
  {
    if FormatNat(counter + 1) in taken {
      AheadShrinks(taken, counter);
      NextFreeSpends(taken, counter + 1);
    } else {
      SubsetSize(Ahead(taken, counter + 1), Ahead(taken, counter));
    }
  }

  lemma {:induction false} CounterSpends(entries: seq<Entry>, idField: string, stated: set<string>)
    ensures CounterAfter(entries, idField, stated) + |Ahead(stated, CounterAfter(entries, idField, stated))|
            <= Unstated(entries, idField) + |stated|
  {
    hide Stated;
    if entries == [] {
      SubsetSize(Ahead(stated, 0), stated);
    } else {
      var before := entries[..|entries| - 1];
      CounterSpends(before, idField, stated);
      NextFreeSpends(stated, CounterAfter(before, idField, stated));
    }
  }

  lemma {:induction false} StatedAndUnstated(entries: seq<Entry>, idField: string)
    ensures |StatedIds(entries, idField)| + Unstated(entries, idField) <= |entries|
  {
    hide Stated, StatedIds;
    if entries == [] {
      NothingStated(idField);
    } else {
      var n := |entries| - 1;
      StatedAndUnstated(entries[..n], idField);
      assert entries == entries[..n] + [entries[n]];
      StatedIdsSnoc(entries[..n], entries[n], idField);
    }
  }

  lemma NothingStated(idField: string)
    ensures StatedIds([], idField) == {}
  {
  }

  /** The search for free numbers ends, and never counts past the number of entries. */
  lemma CounterStaysSmall(entries: seq<Entry>, idField: string)
    ensures CounterAfter(entries, idField, StatedIds(entries, idField)) <= |entries|
  {
    CounterSpends(entries, idField, StatedIds(entries, idField));
    StatedAndUnstated(entries, idField);
  }

  lemma {:induction false} HighestBounds(ids: seq<string>)
    ensures forall id :: id in ids && ParseInt(id).Some? ==> ParseInt(id).value <= Highest(ids)
    ensures Highest(ids) > 0 ==> exists id :: id in ids && ParseInt(id) == Some(Highest(ids))
  {
    hide ParseInt;
    if ids != [] {
      var n := |ids| - 1;
      HighestBounds(ids[..n]);
      assert ids == ids[..n] + [ids[n]];
      if Highest(ids) > 0 && Highest(ids) == Highest(ids[..n]) {
        var id :| id in ids[..n] && ParseInt(id) == Some(Highest(ids));
        assert id in ids;
      }
    }
  }

  /** One past the largest identifier that reads as a 64-bit integer, or one; only past the
      largest there is it wraps. */
  lemma CounterIsOnePast(ids: seq<string>)
    ensures var next := Wrap64(Highest(ids) + 1);
            if exists id :: id in ids && ParseInt(id) == Some(MAX_INT64) then next == MIN_INT64
            else
              && next >= 1
              && (forall id :: id in ids && ParseInt(id).Some? ==> ParseInt(id).value < next)
              && (next == 1 || exists id :: id in ids && ParseInt(id) == Some(next - 1))
  {
    hide ParseInt, Highest;
    HighestBounds(ids);
    var h := Highest(ids);
    assert h < MAX_INT64 ==> Wrap64(h + 1) == h + 1;
    assert Wrap64(MAX_INT64 + 1) == MIN_INT64;
  }

  /** The counter is left above every identifier that reads as a 64-bit integer, and no
      higher than that takes, unless one of them is the largest there is: then the counter
      wraps to the smallest. */
  lemma CounterClearsTheSeed(ids: seq<string>)
    ensures var next := Wrap64(Highest(ids) + 1);
            (forall id :: id in ids && ParseInt(id).Some? ==> ParseInt(id).value < next)
            <==> forall id :: id in ids ==> ParseInt(id) != Some(MAX_INT64)
    ensures var next := Wrap64(Highest(ids) + 1);
            || next == 1
            || (exists id :: id in ids && ParseInt(id) == Some(next - 1))
            || (next == MIN_INT64 && exists id :: id in ids && ParseInt(id) == Some(MAX_INT64))
  {
    hide ParseInt;
    HighestBounds(ids);
    var h := Highest(ids);
    if h == MAX_INT64 {
      assert Wrap64(h + 1) == MIN_INT64;
    } else {
      assert Wrap64(h + 1) == h + 1;
    }
  }

  /** The text of 9223372036854775807. */
  const LARGEST_ID := FormatInt(MAX_INT64)

  lemma LargestIdIsText()
    ensures LARGEST_ID != ""
  {
    assert MAX_INT64 >= 0;
  }

  /** One entry with that identifier, and the counter starts from the other end. */
  lemma LargestIdWrapsTheCounter(idField: string, strategy: Strategy, uuid: nat -> string)
    ensures var outcome := SeedOutcome([Object(map[idField := Str(LARGEST_ID)])], idField, strategy, uuid);
            outcome.Seeded? && outcome.docs == [Doc(LARGEST_ID, map[idField := Str(LARGEST_ID)])] && outcome.next == MIN_INT64
  {
    hide FirstError, ParseInt, FormatInt, StatedIds, CounterAfter;
    var entry := Object(map[idField := Str(LARGEST_ID)]);
    var entries := [entry];
    LargestIdIsText();
    FirstErrorOfOne(entry, idField);
    var docs := Settled(entries, idField, strategy, uuid);
    assert docs == [Doc(LARGEST_ID, entry.fields)];
    ParseFormat(MAX_INT64);
    assert Ids(docs) == [LARGEST_ID] && [LARGEST_ID][..0] == [];
    assert Wrap64(MAX_INT64 + 1) == MIN_INT64;
  }
}
