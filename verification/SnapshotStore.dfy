/** The snapshots directory (`src/config_snapshot/store.rs`): listing in time order, selecting the
    latest, and retention. Instants are nanoseconds. */
module SnapshotStore {
  import opened Arithmetic
  import opened SnapshotNames
  import opened Sorting
  import opened Text
  import opened Wrappers

  const DAY := 86_400_000_000_000

  /** A snapshot file, and the instant its name encodes if it encodes one. */
  datatype Entry = Entry(instant: Option<int>, name: string)

  datatype StoreError = NoSnapshots | UnreadableSnapshot(name: string)

  predicate BelongsTo(network: string, name: string) {
    StripPrefix(name, network + "-").Some? && StripSuffix(name, ".json").Some?
  }

  function EmbeddedInstant(network: string, name: string, instantOf: string -> Option<int>): Option<int> {
    match TimestampFromFilename(network, name, instantOf)
    case None => None
    case Some(timestamp) => instantOf(timestamp)
  }

  /** The network's files, in directory order. */
  function Entries(network: string, names: seq<string>, instantOf: string -> Option<int>): seq<Entry> {
    if names == [] then []
    else
      var rest := Entries(network, names[1..], instantOf);
      if BelongsTo(network, names[0]) then [Entry(EmbeddedInstant(network, names[0], instantOf), names[0])] + rest
      else rest
  }

  /** They are the files that belong to it, each once and in the order given, with the instant its name
      encodes. */
  lemma {:induction false} EntriesAre(network: string, names: seq<string>, instantOf: string -> Option<int>)
    ensures NamesOf(Entries(network, names, instantOf)) == Filter(names, (name: string) => BelongsTo(network, name))
    ensures forall e :: e in Entries(network, names, instantOf) ==>
              e.instant == EmbeddedInstant(network, e.name, instantOf)
  {
    hide BelongsTo, EmbeddedInstant;
    if names == [] {
    } else {
      EntriesAre(network, names[1..], instantOf);
      var rest := Entries(network, names[1..], instantOf);
      if BelongsTo(network, names[0]) {
        assert NamesOf(Entries(network, names, instantOf)) == [names[0]] + NamesOf(rest);
      }
    }
  }

  // ----- The listing order -----

  /** Dated files by instant, then undated ones by name. */
  predicate NotAfter(a: Entry, b: Entry) {
    match (a.instant, b.instant)
    case (Some(x), Some(y)) => x <= y
    case (Some(_), None) => true
    case (None, Some(_)) => false
    case (None, None) => AtMost(a.name, b.name)
  }

  lemma NotAfterIsOrder()
    ensures IsOrder(NotAfter)
  {
    forall a, b
      ensures NotAfter(a, b) || NotAfter(b, a)
    {
      AtMostTotal(a.name, b.name);
    }
    forall a, b, c | NotAfter(a, b) && NotAfter(b, c)
      ensures NotAfter(a, c)
    {
      if a.instant.None? {
        AtMostTransitive(a.name, b.name, c.name);
      }
    }
  }

  /** Greatest name first. */
  predicate NameNotBefore(a: Entry, b: Entry) {
    AtMost(b.name, a.name)
  }

  lemma NameNotBeforeIsOrder()
    ensures IsOrder(NameNotBefore)
  {
    forall a, b
      ensures NameNotBefore(a, b) || NameNotBefore(b, a)
    {
      AtMostTotal(a.name, b.name);
    }
    forall a, b, c | NameNotBefore(a, b) && NameNotBefore(b, c)
      ensures NameNotBefore(a, c)
    {
      AtMostTransitive(c.name, b.name, a.name);
    }
  }

  function Listing(entries: seq<Entry>): seq<Entry> {
    StableSort(entries, NotAfter)
  }

  /** Listing rearranges the files into time order and loses none. */
  lemma ListingIsChronological(entries: seq<Entry>)
    ensures |Listing(entries)| == |entries| && multiset(Listing(entries)) == multiset(entries)
    ensures forall e :: e in Listing(entries) <==> e in entries
    ensures Sorted(Listing(entries), NotAfter)
  {
    NotAfterIsOrder();
    SortElements(entries, NotAfter);
    SortSorts(entries, NotAfter);
    SameMembers(entries, Listing(entries));
  }

  function NamesOf(entries: seq<Entry>): (names: seq<string>)
    ensures |names| == |entries|
    ensures forall i :: 0 <= i < |names| ==> names[i] == entries[i].name
  {
    seq(|entries|, i requires 0 <= i < |entries| => entries[i].name)
  }

  predicate DistinctNames(entries: seq<Entry>) {
    forall i, j :: 0 <= i < j < |entries| ==> entries[i].name != entries[j].name
  }

  // ----- The latest snapshot -----

  predicate AllDated(entries: seq<Entry>) {
    forall i :: 0 <= i < |entries| ==> entries[i].instant.Some?
  }

  predicate NoneDated(entries: seq<Entry>) {
    forall i :: 0 <= i < |entries| ==> entries[i].instant.None?
  }

  /** What selection looks for: the first file in directory order among those with the newest
      instant, or the greatest name when no file is dated. */
  predicate IsSelected(entries: seq<Entry>, i: nat) {
    && i < |entries|
    && if NoneDated(entries) then
         forall j :: 0 <= j < |entries| ==> AtMost(entries[j].name, entries[i].name)
       else
         && entries[i].instant.Some?
         && (forall j :: 0 <= j < |entries| && entries[j].instant.Some? ==>
               entries[j].instant.value <= entries[i].instant.value)
         && (forall j :: 0 <= j < i && entries[j].instant.Some? ==> entries[j].instant.value < entries[i].instant.value)
  }

  // ----- Retention -----

  datatype Policy = Policy(count: Option<nat>, days: Option<nat>)

  /** `--retain 0` keeps one, like `--retain 1`. */
  predicate OverCount(n: nat, i: nat, policy: Policy) {
    policy.count.Some? && i < n - Max(policy.count.value, 1)
  }

  /** Whole days, truncated toward zero. */
  function AgeDays(recordedAt: int, now: int): int {
    TruncDiv(now - recordedAt, DAY)
  }

  predicate TooOld(e: Entry, policy: Policy, recorded: string -> Option<int>, now: int) {
    policy.days.Some? && recorded(e.name).Some? && AgeDays(recorded(e.name).value, now) > policy.days.value
  }

  /** A file is too old once one day more than the rule allows has passed in full. */
  lemma TooOldIff(e: Entry, policy: Policy, recorded: string -> Option<int>, now: int)
    ensures TooOld(e, policy, recorded, now) <==>
              exists days, at :: policy.days == Some(days) && recorded(e.name) == Some(at)
                                 && now - at >= (days + 1) * 24 * 60 * 60 * 1_000_000_000
  {
    if policy.days.Some? && recorded(e.name).Some? {
      var elapsed := now - recorded(e.name).value;
      DaysElapsed(elapsed, policy.days.value);
    }
  }

  lemma DaysElapsed(elapsed: int, days: nat)
    ensures TruncDiv(elapsed, DAY) > days <==> elapsed >= (days + 1) * 24 * 60 * 60 * 1_000_000_000
  {
  }

  predicate IsRejected(list: seq<Entry>, i: nat, policy: Policy, recorded: string -> Option<int>, now: int)
    requires i < |list|
  {
    OverCount(|list|, i, policy) || TooOld(list[i], policy, recorded, now)
  }

  /** An age rule reads every file but the last. */
  predicate CanDecide(list: seq<Entry>, policy: Policy, recorded: string -> Option<int>) {
    policy.days.Some? ==> forall i :: 0 <= i < |list| - 1 ==> recorded(list[i].name).Some?
  }

  /** The names to delete, from `from` on: every rejected file but the last of the listing. */
  function Doomed(list: seq<Entry>, from: nat, policy: Policy, recorded: string -> Option<int>, now: int): seq<string>
    decreases |list| - from
  {
    if from >= |list| - 1 then []
    else if IsRejected(list, from, policy, recorded, now) then
      [list[from].name] + Doomed(list, from + 1, policy, recorded, now)
    else Doomed(list, from + 1, policy, recorded, now)
  }

  function NameKept(doomed: seq<string>): string -> bool {
    name => name !in doomed
  }

  function EntryKept(doomed: seq<string>): Entry -> bool {
    (e: Entry) => e.name !in doomed
  }

  /** The directory after a run: without the doomed files, or as it was if the run fails. */
  function AfterPruning(network: string, names: seq<string>, instantOf: string -> Option<int>, policy: Policy,
                        recorded: string -> Option<int>, now: int): seq<string> {
    var list := Listing(Entries(network, names, instantOf));
    if CanDecide(list, policy, recorded) then Filter(names, NameKept(Doomed(list, 0, policy, recorded, now))) else names
  }

  lemma {:induction false} NoPolicyDoomsNothing(list: seq<Entry>, from: nat, policy: Policy,
                                                recorded: string -> Option<int>, now: int)
    requires |list| < 2 || (policy.count.None? && policy.days.None?)
    ensures Doomed(list, from, policy, recorded, now) == []
    decreases |list| - from
  {
    if from < |list| - 1 {
      NoPolicyDoomsNothing(list, from + 1, policy, recorded, now);
    }
  }

  lemma {:induction false} FilterOneMore(names: seq<string>, doomed: seq<string>, i: nat)
    requires i < |doomed|
    ensures Filter(Filter(names, NameKept(doomed[..i])), NameKept([doomed[i]]))
              == Filter(names, NameKept(doomed[..i + 1]))
  {
    if names == [] {
    } else {
      FilterOneMore(names[1..], doomed, i);
      assert doomed[..i + 1] == doomed[..i] + [doomed[i]];
      var first := Filter(names, NameKept(doomed[..i]));
      if NameKept(doomed[..i])(names[0]) {
        assert first[0] == names[0] && first[1..] == Filter(names[1..], NameKept(doomed[..i]));
      }
    }
  }

  lemma {:induction false} FilterDistinctNames(names: seq<string>, p: string -> bool)
    requires forall i, j :: 0 <= i < j < |names| ==> names[i] != names[j]
    ensures forall i, j :: 0 <= i < j < |Filter(names, p)| ==> Filter(names, p)[i] != Filter(names, p)[j]
  {
    if names == [] {
    } else {
      FilterDistinctNames(names[1..], p);
      FilterMembers(names[1..], p, names[0]);
    }
  }

  // ----- The directory -----

  class SnapshotDir {
    /** Directory order is whatever the file system gives; names are distinct. */
    var names: seq<string>

    /** The instant a snapshot file records, if it can be read. */
    const recorded: string -> Option<int>
    const instantOf: string -> Option<int>

    predicate Valid()
      reads this
    {
      forall i, j :: 0 <= i < j < |names| ==> names[i] != names[j]
    }

    constructor (names: seq<string>, recorded: string -> Option<int>, instantOf: string -> Option<int>)
      requires forall i, j :: 0 <= i < j < |names| ==> names[i] != names[j]
      ensures Valid() && this.names == names && this.recorded == recorded && this.instantOf == instantOf
    {
      this.names, this.recorded, this.instantOf := names, recorded, instantOf;
    }

    /** The network's files as the directory gives them. */
    method ReadDir(network: string) returns (entries: seq<Entry>)
      ensures entries == Entries(network, names, instantOf)
    {
      entries := [];
      for i := 0 to |names|
        invariant entries + Entries(network, names[i..], instantOf) == Entries(network, names, instantOf)
      {
        ghost var before := entries;
        if BelongsTo(network, names[i]) {
          entries := entries + [Entry(EmbeddedInstant(network, names[i], instantOf), names[i])];
        }
        assert names[i..][1..] == names[i + 1..];
        assert before + Entries(network, names[i..], instantOf)
                 == entries + Entries(network, names[i + 1..], instantOf);
      }
      assert entries + [] == entries;
    }

    method ListSnapshotsIn(network: string) returns (paths: seq<string>)
      ensures paths == NamesOf(Listing(Entries(network, names, instantOf)))
    {
      var snapshots := ReadDir(network);
      snapshots := StableSort(snapshots, NotAfter);
      paths := NamesOf(snapshots);
    }

    method SelectLatestSnapshot(network: string) returns (r: Result<string, StoreError>)
      ensures var entries := Entries(network, names, instantOf);
              match r
              case Err(e) => entries == [] && e == NoSnapshots
              case Ok(name) => exists i: nat :: IsSelected(entries, i) && entries[i].name == name
    {
      var candidates := ReadDir(network);
      if candidates == [] {
        return Err(NoSnapshots);
      }
      var best: Option<nat> := None;
      for i := 0 to |candidates|
        invariant best.None? ==> forall j :: 0 <= j < i ==> candidates[j].instant.None?
        invariant best.Some? ==>
                    && best.value < i && candidates[best.value].instant.Some?
                    && (forall j :: 0 <= j < i && candidates[j].instant.Some? ==>
                          candidates[j].instant.value <= candidates[best.value].instant.value)
                    && (forall j :: 0 <= j < best.value && candidates[j].instant.Some? ==>
                          candidates[j].instant.value < candidates[best.value].instant.value)
      {
        if candidates[i].instant.Some? {
          if best.None? || candidates[i].instant.value > candidates[best.value].instant.value {
            best := Some(i);
          }
        }
      }
      if best.Some? {
        assert IsSelected(candidates, best.value);
        return Ok(candidates[best.value].name);
      }
      var byName := StableSort(candidates, NameNotBefore);
      NameNotBeforeIsOrder();
      SortSorts(candidates, NameNotBefore);
      SortElements(candidates, NameNotBefore);
      SameMembers(candidates, byName);
      assert byName[0] in byName;
      ghost var i :| 0 <= i < |candidates| && candidates[i] == byName[0];
      forall j | 0 <= j < |candidates|
        ensures AtMost(candidates[j].name, candidates[i].name)
      {
        assert candidates[j] in byName;
        AtMostTotal(candidates[j].name, candidates[j].name);
      }
      assert IsSelected(candidates, i);
      return Ok(byName[0].name);
    }

    /** Applies a retention policy: the whole policy is decided before anything is deleted, so an
        unreadable file leaves the directory as it was. */
    method PruneSnapshotsIn(network: string, policy: Policy, now: int) returns (r: Result<seq<string>, StoreError>)
      requires Valid()
      modifies this`names
      ensures Valid()
      ensures var list := Listing(Entries(network, old(names), instantOf));
              && (r.Ok? <==> CanDecide(list, policy, recorded))
              && (r.Ok? ==> r.value == Doomed(list, 0, policy, recorded, now))
      ensures names == AfterPruning(network, old(names), instantOf, policy, recorded, now)
    {
      var snapshots := ReadDir(network);
      var list := StableSort(snapshots, NotAfter);
      if |list| < 2 || (policy.count.None? && policy.days.None?) {
        NoPolicyDoomsNothing(list, 0, policy, recorded, now);
        FilterAll(names, NameKept([]));
        return Ok([]);
      }
      var doomed: seq<string> := [];
      for i := 0 to |list| - 1
        invariant policy.days.Some? ==> forall j :: 0 <= j < i ==> recorded(list[j].name).Some?
        invariant doomed + Doomed(list, i, policy, recorded, now) == Doomed(list, 0, policy, recorded, now)
      {
        ghost var before := doomed;
        if policy.days.Some? && recorded(list[i].name).None? {
          return Err(UnreadableSnapshot(list[i].name));
        }
        if IsRejected(list, i, policy, recorded, now) {
          doomed := doomed + [list[i].name];
        }
        assert before + Doomed(list, i, policy, recorded, now) == doomed + Doomed(list, i + 1, policy, recorded, now);
      }
      assert doomed + [] == doomed;
      FilterDistinctNames(names, NameKept(doomed));
      RemoveFiles(doomed);
      return Ok(doomed);
    }

    method RemoveFiles(doomed: seq<string>)
      modifies this`names
      ensures names == Filter(old(names), NameKept(doomed))
    {
      FilterAll(names, NameKept([]));
      assert doomed[..0] == [];
      for i := 0 to |doomed|
        invariant names == Filter(old(names), NameKept(doomed[..i]))
      {
        FilterOneMore(old(names), doomed, i);
        names := Filter(names, NameKept([doomed[i]]));
      }
      assert doomed[..|doomed|] == doomed;
    }
  }

  // ----- What retention keeps -----

  lemma {:induction false} DoomedIff(list: seq<Entry>, from: nat, policy: Policy, recorded: string -> Option<int>,
                                     now: int, name: string)
    ensures name in Doomed(list, from, policy, recorded, now) <==>
              exists i :: from <= i < |list| - 1 && IsRejected(list, i, policy, recorded, now) && list[i].name == name
    decreases |list| - from
  {
    if from < |list| - 1 {
      DoomedIff(list, from + 1, policy, recorded, now, name);
    }
  }

  predicate ComesBefore(names: seq<string>, x: string, y: string) {
    exists a, b :: 0 <= a < b < |names| && names[a] == x && names[b] == y
  }

  /** The files to delete are named in the order of the listing. */
  lemma {:induction false} DoomedInOrder(list: seq<Entry>, from: nat, policy: Policy,
                                         recorded: string -> Option<int>, now: int, i: nat, j: nat)
    requires from <= i < j < |list| - 1
    requires IsRejected(list, i, policy, recorded, now) && IsRejected(list, j, policy, recorded, now)
    ensures ComesBefore(Doomed(list, from, policy, recorded, now), list[i].name, list[j].name)
    decreases |list| - from
  {
    var doomed := Doomed(list, from, policy, recorded, now);
    var rest := Doomed(list, from + 1, policy, recorded, now);
    if from == i {
      DoomedIff(list, from + 1, policy, recorded, now, list[j].name);
      var b :| 0 <= b < |rest| && rest[b] == list[j].name;
      assert doomed == [list[i].name] + rest;
      assert 0 < b + 1 < |doomed| && doomed[0] == list[i].name && doomed[b + 1] == list[j].name;
    } else {
      DoomedInOrder(list, from + 1, policy, recorded, now, i, j);
      var a, b :| 0 <= a < b < |rest| && rest[a] == list[i].name && rest[b] == list[j].name;
      if IsRejected(list, from, policy, recorded, now) {
        assert doomed == [list[from].name] + rest;
        assert doomed[a + 1] == list[i].name && doomed[b + 1] == list[j].name;
      } else {
        assert doomed[a] == list[i].name && doomed[b] == list[j].name;
      }
    }
  }

  predicate DifferentNames(a: Entry, b: Entry) {
    a.name != b.name
  }

  lemma ListingDistinct(entries: seq<Entry>)
    requires DistinctNames(entries)
    ensures DistinctNames(Listing(entries))
  {
    assert Pairwise(entries, DifferentNames);
    SortPairwise(entries, NotAfter, DifferentNames);
    var list := Listing(entries);
    assert forall i, j :: 0 <= i < j < |list| ==> DifferentNames(list[i], list[j]);
  }

  /** A file goes exactly when a rule rejects it and it is not the last of the listing. */
  lemma DoomedExactly(list: seq<Entry>, policy: Policy, recorded: string -> Option<int>, now: int, i: nat)
    requires DistinctNames(list) && i < |list|
    ensures list[i].name in Doomed(list, 0, policy, recorded, now) <==>
              i < |list| - 1 && IsRejected(list, i, policy, recorded, now)
  {
    DoomedIff(list, 0, policy, recorded, now, list[i].name);
  }

  /** Distinct file names give distinct entries. */
  lemma {:induction false} EntriesDistinct(network: string, names: seq<string>, instantOf: string -> Option<int>)
    requires forall i, j :: 0 <= i < j < |names| ==> names[i] != names[j]
    ensures DistinctNames(Entries(network, names, instantOf))
    ensures forall e :: e in Entries(network, names, instantOf) ==> e.name in names
  {
    if names == [] {
    } else {
      EntriesDistinct(network, names[1..], instantOf);
      var rest := Entries(network, names[1..], instantOf);
      forall i | 0 <= i < |rest|
        ensures rest[i].name != names[0]
      {
        assert rest[i] in rest;
      }
      assert names == [names[0]] + names[1..];
    }
  }

  lemma {:induction false} EntriesFilter(network: string, names: seq<string>, instantOf: string -> Option<int>,
                                         doomed: seq<string>)
    ensures Entries(network, Filter(names, NameKept(doomed)), instantOf)
              == Filter(Entries(network, names, instantOf), EntryKept(doomed))
  {
    if names == [] {
    } else {
      EntriesFilter(network, names[1..], instantOf, doomed);
      if NameKept(doomed)(names[0]) {
        assert Filter(names, NameKept(doomed))[1..] == Filter(names[1..], NameKept(doomed));
      }
      if BelongsTo(network, names[0]) {
        assert Entries(network, names, instantOf)[1..] == Entries(network, names[1..], instantOf);
      }
    }
  }

  lemma {:induction false} FilterDistinct(s: seq<Entry>, p: Entry -> bool)
    requires DistinctNames(s)
    ensures DistinctNames(Filter(s, p))
  {
    if s == [] {
    } else {
      FilterDistinct(s[1..], p);
      var rest := Filter(s[1..], p);
      forall i | 0 <= i < |rest|
        ensures rest[i].name != s[0].name
      {
        FilterMembers(s[1..], p, rest[i]);
        assert rest[i] in s[1..];
      }
    }
  }

  /** A count rule alone leaves the last files of the listing, exactly as many as it asks for or as there
      are, and at least one. */
  lemma CountRuleKeepsTheLast(list: seq<Entry>, policy: Policy, recorded: string -> Option<int>, now: int)
    requires DistinctNames(list) && policy.count.Some? && policy.days.None?
    ensures var kept := Min(|list|, if policy.count.value == 0 then 1 else policy.count.value);
            Filter(list, EntryKept(Doomed(list, 0, policy, recorded, now))) == list[|list| - kept..]
  {
    hide Doomed;
    var doomed := Doomed(list, 0, policy, recorded, now);
    var kept := Min(|list|, if policy.count.value == 0 then 1 else policy.count.value);
    var gone, left := list[..|list| - kept], list[|list| - kept..];
    forall i | 0 <= i < |list|
      ensures EntryKept(doomed)(list[i]) <==> i >= |list| - kept
    {
      DoomedExactly(list, policy, recorded, now, i);
    }
    assert list == gone + left;
    FilterConcat(gone, left, EntryKept(doomed));
    FilterNone(gone, EntryKept(doomed));
    FilterAll(left, EntryKept(doomed));
  }

  /** An age rule alone leaves exactly the files no more than its days old, and the last. */
  lemma AgeRuleKeepsTheYoung(list: seq<Entry>, policy: Policy, recorded: string -> Option<int>, now: int, i: nat)
    requires DistinctNames(list) && i < |list|
    requires policy.count.None? && policy.days.Some? && CanDecide(list, policy, recorded)
    ensures list[i] in Filter(list, EntryKept(Doomed(list, 0, policy, recorded, now))) <==>
              || i == |list| - 1
              || now - recorded(list[i].name).value < (policy.days.value + 1) * 24 * 60 * 60 * 1_000_000_000
  {
    hide Doomed, TooOld;
    var doomed := Doomed(list, 0, policy, recorded, now);
    DoomedExactly(list, policy, recorded, now, i);
    TooOldIff(list[i], policy, recorded, now);
    FilterMembers(list, EntryKept(doomed), list[i]);
  }

  /** The count rule leaves at most as many files as it asks for. */
  lemma CountRuleHolds(list: seq<Entry>, policy: Policy, recorded: string -> Option<int>, now: int)
    requires DistinctNames(list) && policy.count.Some?
    ensures |Filter(list, EntryKept(Doomed(list, 0, policy, recorded, now)))| <= Max(policy.count.value, 1)
  {
    hide Doomed, TooOld;
    var doomed := Doomed(list, 0, policy, recorded, now);
    var cut := Max(|list| - Max(policy.count.value, 1), 0);
    forall i | 0 <= i < cut
      ensures !EntryKept(doomed)(list[..cut][i])
    {
      DoomedExactly(list, policy, recorded, now, i);
    }
    FilterNone(list[..cut], EntryKept(doomed));
    FilterConcat(list[..cut], list[cut..], EntryKept(doomed));
    assert list == list[..cut] + list[cut..];
    FilterShorter(list[cut..], EntryKept(doomed));
  }

  /** What is left after pruning: the listing without the deleted files, ending in the same file,
      each file but the last one that no age rule rejects. */
  lemma KeptFiles(list: seq<Entry>, policy: Policy, recorded: string -> Option<int>, now: int, i: nat)
    requires DistinctNames(list) && list != []
    requires i < |Filter(list, EntryKept(Doomed(list, 0, policy, recorded, now)))| - 1
    ensures var left := Filter(list, EntryKept(Doomed(list, 0, policy, recorded, now)));
            && left[|left| - 1] == list[|list| - 1]
            && !TooOld(left[i], policy, recorded, now)
            && (CanDecide(list, policy, recorded) && policy.days.Some? ==> recorded(left[i].name).Some?)
  {
    hide Doomed, TooOld;
    var doomed := Doomed(list, 0, policy, recorded, now);
    var left := Filter(list, EntryKept(doomed));
    DoomedExactly(list, policy, recorded, now, |list| - 1);
    FilterLast(list, EntryKept(doomed));
    FilterDistinct(list, EntryKept(doomed));
    FilterMembers(list, EntryKept(doomed), left[i]);
    assert left[i] in left;
    var k :| 0 <= k < |list| && list[k] == left[i];
    DoomedExactly(list, policy, recorded, now, k);
  }

  lemma {:induction false} NothingDoomed(list: seq<Entry>, from: nat, policy: Policy, recorded: string -> Option<int>,
                                         now: int)
    requires forall i :: 0 <= i < |list| - 1 ==> !IsRejected(list, i, policy, recorded, now)
    ensures Doomed(list, from, policy, recorded, now) == []
    decreases |list| - from
  {
    if from < |list| - 1 {
      NothingDoomed(list, from + 1, policy, recorded, now);
    }
  }

  /** Pruning again under the same policy and clock can be decided and deletes nothing more. */
  lemma PruneIsIdempotent(network: string, names: seq<string>, instantOf: string -> Option<int>, policy: Policy,
                          recorded: string -> Option<int>, now: int)
    requires DistinctNames(Entries(network, names, instantOf))
    requires CanDecide(Listing(Entries(network, names, instantOf)), policy, recorded)
    ensures var doomed := Doomed(Listing(Entries(network, names, instantOf)), 0, policy, recorded, now);
            var again := Listing(Entries(network, Filter(names, NameKept(doomed)), instantOf));
            CanDecide(again, policy, recorded) && Doomed(again, 0, policy, recorded, now) == []
  {
    hide Doomed, Entries, Listing, NotAfter, TooOld;
    var entries := Entries(network, names, instantOf);
    var list := Listing(entries);
    var doomed := Doomed(list, 0, policy, recorded, now);
    ListingDistinct(entries);
    NotAfterIsOrder();
    EntriesFilter(network, names, instantOf, doomed);
    ListingFilter(entries, EntryKept(doomed));
    var again := Filter(list, EntryKept(doomed));
    if policy.count.Some? {
      CountRuleHolds(list, policy, recorded, now);
    }
    FilterShorter(list, EntryKept(doomed));
    forall i | 0 <= i < |again| - 1
      ensures !IsRejected(again, i, policy, recorded, now)
      ensures policy.days.Some? ==> recorded(again[i].name).Some?
    {
      KeptFiles(list, policy, recorded, now, i);
    }
    NothingDoomed(again, 0, policy, recorded, now);
  }

  lemma ListingFilter(entries: seq<Entry>, p: Entry -> bool)
    ensures Listing(Filter(entries, p)) == Filter(Listing(entries), p)
  {
    NotAfterIsOrder();
    SortFilter(entries, NotAfter, p);
  }

  function IsUndated(): Entry -> bool {
    (e: Entry) => e.instant.None?
  }

  /** The undated files are the tail of the listing. */
  lemma {:induction false} UndatedAreLast(list: seq<Entry>, i: nat)
    requires Sorted(list, NotAfter) && i < |list|
    ensures |Filter(list, IsUndated())| <= |list|
    ensures list[i].instant.None? <==> i >= |list| - |Filter(list, IsUndated())|
  {
    FilterShorter(list, IsUndated());
    if list[0].instant.None? {
      forall j | 0 <= j < |list|
        ensures IsUndated()(list[j])
      {
        assert j == 0 || NotAfter(list[0], list[j]);
      }
      FilterAll(list, IsUndated());
    } else if |list| > 1 {
      UndatedAreLast(list[1..], if i == 0 then 0 else i - 1);
      FilterShorter(list[1..], IsUndated());
    }
  }

  lemma NewestDated(list: seq<Entry>, k: nat)
    requires Sorted(list, NotAfter) && k < |list| && list[k].instant.Some?
    ensures var n := |list| - |Filter(list, IsUndated())| - 1;
            && k <= n < |list| && list[n].instant.Some?
            && list[k].instant.value <= list[n].instant.value
  {
    hide Filter;
    UndatedAreLast(list, k);
    var n := |list| - |Filter(list, IsUndated())| - 1;
    UndatedAreLast(list, n);
    assert k == n || NotAfter(list[k], list[n]);
  }

  /** The documentation promises that the newest snapshot is never deleted. The code protects the
      last file of the listing. With `undated` undated files in the directory, the snapshot newest
      by time is still there after a run exactly when there are none, or the count rule asks for
      more files than they are and no age rule rejects it, or the run fails. */
  lemma NewestSurvivesIff(network: string, names: seq<string>, instantOf: string -> Option<int>, policy: Policy,
                          recorded: string -> Option<int>, now: int)
    requires forall i, j :: 0 <= i < j < |names| ==> names[i] != names[j]
    requires !NoneDated(Entries(network, names, instantOf))
    ensures var entries := Entries(network, names, instantOf);
            var list, undated := Listing(entries), |Filter(entries, IsUndated())|;
            && undated < |list|
            && (var newest := list[|list| - undated - 1];
                && newest.instant.Some? && newest in entries
                && (forall e :: e in entries && e.instant.Some? ==> e.instant.value <= newest.instant.value)
                && (newest.name in AfterPruning(network, names, instantOf, policy, recorded, now) <==>
                      || undated == 0
                      || (&& (policy.count.None? || Max(policy.count.value, 1) > undated)
                          && !TooOld(newest, policy, recorded, now))
                      || !CanDecide(list, policy, recorded)))
  {
    hide Doomed, TooOld, Entries, Listing, Filter, NotAfter, Sorted, DistinctNames, CanDecide;
    var entries := Entries(network, names, instantOf);
    EntriesDistinct(network, names, instantOf);
    NewestIs(entries);
    var list := Listing(entries);
    var k := |list| - |Filter(entries, IsUndated())| - 1;
    ListingDistinct(entries);
    DoomedExactly(list, policy, recorded, now, k);
    FilterMembers(names, NameKept(Doomed(list, 0, policy, recorded, now)), list[k].name);
  }

  /** The snapshot newest by time comes just before the undated files. */
  lemma NewestIs(entries: seq<Entry>)
    requires !NoneDated(entries)
    ensures var list, undated := Listing(entries), |Filter(entries, IsUndated())|;
            && undated < |list|
            && (var newest := list[|list| - undated - 1];
                && newest.instant.Some? && newest in entries
                && (forall e :: e in entries && e.instant.Some? ==> e.instant.value <= newest.instant.value))
  {
    hide Listing, Filter, NotAfter, Sorted;
    var list := Listing(entries);
    var undated := |Filter(list, IsUndated())|;
    ListingIsChronological(entries);
    ListingFilter(entries, IsUndated());
    ListingIsChronological(Filter(entries, IsUndated()));
    forall e | e in entries && e.instant.Some?
      ensures undated < |list|
      ensures list[|list| - undated - 1].instant.Some?
      ensures e.instant.value <= list[|list| - undated - 1].instant.value
    {
      assert e in list;
      var k :| 0 <= k < |list| && list[k] == e;
      NewestDated(list, k);
    }
    var d :| 0 <= d < |entries| && entries[d].instant.Some?;
    assert entries[d] in entries;
    assert list[|list| - undated - 1] in list;
  }

  /** One dated snapshot beside one file without a date: keeping one file deletes the snapshot. */
  lemma NewestCanBeDeleted(network: string, t: Stamp, instantOf: string -> Option<int>,
                           recorded: string -> Option<int>, now: int)
    requires IsShaped(t) && instantOf(StampText(t)).Some?
    ensures var snapshot, notes := FileName(network, StampText(t)), FileName(network, "notes");
            snapshot !in AfterPruning(network, [snapshot, notes], instantOf, Policy(Some(1), None), recorded, now)
  {
    hide FileName, StampText, TimestampFromFilename, AfterPruning, IsShaped;
    LowerCaseIsLost(network, "notes", instantOf);
    NameBelongs(network, "notes");
    UndatedDisplaces(network, t, FileName(network, "notes"), instantOf, recorded, now);
  }

  lemma UndatedDisplaces(network: string, t: Stamp, other: string, instantOf: string -> Option<int>,
                         recorded: string -> Option<int>, now: int)
    requires IsShaped(t) && instantOf(StampText(t)).Some?
    requires BelongsTo(network, other) && EmbeddedInstant(network, other, instantOf).None?
    ensures var snapshot := FileName(network, StampText(t));
            snapshot !in AfterPruning(network, [snapshot, other], instantOf, Policy(Some(1), None), recorded, now)
  {
    hide FileName, StampText, TimestampFromFilename, Doomed, AfterPruning, IsShaped, BelongsTo;
    var snapshot := FileName(network, StampText(t));
    NameThenRead(network, t, instantOf);
    NameBelongs(network, StampText(t));
    var dated, undated := Entry(instantOf(StampText(t)), snapshot), Entry(None, other);
    assert [snapshot, other][1..] == [other];
    assert Entries(network, [other], instantOf) == [undated];
    assert Entries(network, [snapshot, other], instantOf) == [dated, undated];
    DatedFirst(dated, undated);
    assert [dated, undated][1..] == [undated];
    assert Filter([undated], IsUndated()) == [undated];
    assert Filter([dated, undated], IsUndated()) == [undated];
    forall i, j | 0 <= i < j < 2
      ensures [snapshot, other][i] != [snapshot, other][j]
    {
      assert snapshot != other;
    }
    NewestSurvivesIff(network, [snapshot, other], instantOf, Policy(Some(1), None), recorded, now);
  }

  // ----- Whose files a listing holds -----

  /** A network's listing takes in a file of network `owner` exactly when the two are the same, or
      `owner` is the network with a hyphen and more, or the other way round as far as the timestamp
      in the name goes on as the network does. */
  lemma BelongsIff(network: string, owner: string, timestamp: string)
    ensures BelongsTo(network, FileName(owner, timestamp)) <==>
              || network == owner
              || network + "-" <= owner
              || (owner + "-" <= network && network[|owner| + 1..] + "-" <= Replace(timestamp, ':', '-'))
  {
    hide Replace;
    var encoded := Replace(timestamp, ':', '-');
    var name := FileName(owner, timestamp);
    assert name[|name| - 5..] == ".json";
    assert BelongsTo(network, name) <==> network + "-" <= name;
    assert name == (owner + "-") + (encoded + ".json");
    PrefixOfJoined(network, owner, encoded);
  }

  lemma PrefixOfJoined(network: string, owner: string, encoded: string)
    ensures network + "-" <= (owner + "-") + (encoded + ".json") <==>
              || network == owner
              || network + "-" <= owner
              || (owner + "-" <= network && network[|owner| + 1..] + "-" <= encoded)
  {
    var name := (owner + "-") + (encoded + ".json");
    var p := network + "-";
    if |network| < |owner| {
      assert forall i :: 0 <= i < |p| ==> name[i] == owner[i];
    } else if |network| == |owner| {
      assert forall i :: 0 <= i < |owner| ==> name[i] == owner[i] && p[i] == network[i];
    } else {
      LongerNetwork(network, owner, encoded);
    }
  }

  lemma LongerNetwork(network: string, owner: string, encoded: string)
    requires |network| > |owner|
    ensures network + "-" <= (owner + "-") + (encoded + ".json") <==>
              owner + "-" <= network && network[|owner| + 1..] + "-" <= encoded
  {
    var tail := network[|owner| + 1..] + "-";
    assert network + "-" == network[..|owner| + 1] + tail;
    PrefixOfParts(network[..|owner| + 1], tail, owner + "-", encoded + ".json");
    HyphenBeforeSuffix(network[|owner| + 1..], encoded);
    assert network[..|owner| + 1] == owner + "-" <==> owner + "-" <= network;
  }

  lemma PrefixOfParts(a: string, b: string, c: string, d: string)
    requires |a| == |c|
    ensures a + b <= c + d <==> a == c && b <= d
  {
    if a + b <= c + d {
      assert forall i :: 0 <= i < |a| ==> a[i] == (a + b)[i] == (c + d)[i] == c[i];
      assert forall i :: 0 <= i < |b| ==> b[i] == (a + b)[|a| + i] == (c + d)[|a| + i] == d[i];
    }
  }

  lemma HyphenBeforeSuffix(p: string, encoded: string)
    ensures p + "-" <= encoded + ".json" <==> p + "-" <= encoded
  {
    if p + "-" <= encoded + ".json" {
      assert (encoded + ".json")[|p|] == (p + "-")[|p|] == '-';
      assert |p| < |encoded|;
      assert forall i :: 0 <= i <= |p| ==> (p + "-")[i] == (encoded + ".json")[i] == encoded[i];
    }
  }

  /** The file of a network whose name goes on after a hyphen is listed too, and as undated: what is
      read from its name starts with the rest of the network's name. */
  lemma OtherNetworkIsUndated(network: string, more: string, t: Stamp, instantOf: string -> Option<int>)
    requires IsShaped(t) && 'T' !in more && ':' !in more
    requires instantOf(more + "-" + StampText(t)).None?
    ensures BelongsTo(network, FileName(network + "-" + more, StampText(t)))
    ensures EmbeddedInstant(network, FileName(network + "-" + more, StampText(t)), instantOf) == None
  {
    hide Replace, BelongsTo, TimestampFromFilename;
    var longer := t.(date := more + "-" + t.date);
    assert StampText(longer) == more + "-" + StampText(t);
    ReplaceConcat(more + "-", StampText(t), ':', '-');
    ReplaceAbsent(more + "-", ':', '-');
    assert FileName(network, StampText(longer)) == FileName(network + "-" + more, StampText(t));
    NameBelongs(network, StampText(longer));
    NameThenRead(network, longer, instantOf);
  }

  /** So keeping one file of a network can delete its own snapshot in favour of another network's. */
  lemma OtherNetworkDisplacesNewest(network: string, more: string, t: Stamp, u: Stamp,
                                    instantOf: string -> Option<int>, recorded: string -> Option<int>, now: int)
    requires IsShaped(t) && instantOf(StampText(t)).Some?
    requires IsShaped(u) && 'T' !in more && ':' !in more && instantOf(more + "-" + StampText(u)).None?
    ensures var own, foreign := FileName(network, StampText(t)), FileName(network + "-" + more, StampText(u));
            own !in AfterPruning(network, [own, foreign], instantOf, Policy(Some(1), None), recorded, now)
  {
    hide FileName, StampText, EmbeddedInstant, AfterPruning, IsShaped, BelongsTo;
    OtherNetworkIsUndated(network, more, u, instantOf);
    UndatedDisplaces(network, t, FileName(network + "-" + more, StampText(u)), instantOf, recorded, now);
  }

  lemma NameBelongs(network: string, timestamp: string)
    ensures BelongsTo(network, FileName(network, timestamp))
  {
    hide Replace, StripPrefix;
    NameParts(network, Replace(timestamp, ':', '-'));
    var name := FileName(network, timestamp);
    assert name[|name| - 5..] == ".json";
  }

  lemma DatedFirst(a: Entry, b: Entry)
    requires a.instant.Some? && (b.instant.None? || a.instant == b.instant)
    ensures Listing([a, b]) == [a, b]
  {
    assert [a, b][1..] == [b] && StableSort([b], NotAfter) == [b];
  }

  // ----- Newest by index, newest by time -----

  lemma {:induction false} FilterTwo(s: seq<Entry>, p: Entry -> bool, i: nat, j: nat)
    requires DistinctNames(s) && i < j < |s| && p(s[i]) && p(s[j])
    requires forall k :: 0 <= k < i ==> !p(s[k])
    ensures var f := Filter(s, p); f != [] && f[0] == s[i] && f[|f| - 1] != s[i]
  {
    FilterFirst(s, p, i);
    if i == 0 {
      FilterMembers(s[1..], p, s[j]);
      assert s[1..][j - 1] == s[j];
      var rest := Filter(s[1..], p);
      FilterMembers(s[1..], p, rest[|rest| - 1]);
    } else {
      FilterTwo(s[1..], p, i - 1, j - 1);
    }
  }

  /** The last file of the listing is the one selection picks exactly when no file is dated, or
      every file is and only one has the newest instant: undated files are listed last, and of
      files with equal instants the listing ends with the last while selection keeps the first. */
  lemma LastIsSelectedIff(entries: seq<Entry>, i: nat)
    requires DistinctNames(entries) && IsSelected(entries, i)
    ensures |Listing(entries)| == |entries|
    ensures Listing(entries)[|entries| - 1] == entries[i] <==>
              || NoneDated(entries)
              || (AllDated(entries) && forall j :: 0 <= j < |entries| && j != i ==>
                    entries[j].instant != entries[i].instant)
  {
    ListingIsChronological(entries);
    NotAfterIsOrder();
    var list, e := Listing(entries), entries[i];
    var last := list[|list| - 1];
    assert last in entries;
    forall j | 0 <= j < |entries|
      ensures NotAfter(entries[j], last)
    {
      assert entries[j] in list;
    }
    if NoneDated(entries) {
      AtMostAntisymmetric(e.name, last.name);
    } else if AllDated(entries) {
      assert last.instant == e.instant;
      if j :| 0 <= j < |entries| && j != i && entries[j].instant == e.instant {
        TiesEndElsewhere(entries, i, j, last);
      }
    }
  }

  /** Selection takes the dated file, or the first of two with one instant; the listing ends with the
      other one. */
  lemma LastCanDifferFromSelected(a: Entry, b: Entry)
    requires a.instant.Some? && (b.instant.None? || a.instant == b.instant)
    ensures IsSelected([a, b], 0) && Listing([a, b]) == [a, b]
  {
    DatedFirst(a, b);
    assert !NoneDated([a, b]) by { assert [a, b][0].instant.Some?; }
  }

  lemma TiesEndElsewhere(entries: seq<Entry>, i: nat, j: nat, last: Entry)
    requires DistinctNames(entries) && IsSelected(entries, i) && AllDated(entries)
    requires j < |entries| && j != i && entries[j].instant == entries[i].instant
    requires |Listing(entries)| == |entries| && last == Listing(entries)[|entries| - 1]
    requires last.instant == entries[i].instant
    ensures last != entries[i]
  {
    NotAfterIsOrder();
    var tied := TiesWith(NotAfter, entries[i]);
    SortIsStable(entries, NotAfter, entries[i]);
    FilterLast(Listing(entries), tied);
    FilterTwo(entries, tied, i, j);
  }
}
