/** The change log of a network's snapshots (`src/config_snapshot/history.rs`). */
module ConfigHistory {
  import SnapshotNames
  import Timestamps
  import opened ConfigDiff
  import opened Sorting
  import opened Text
  import opened Wrappers

  datatype HistoryEntry = HistoryEntry(
    path: Path, timestamp: string, ledger: nat, oldValue: string, newValue: string, isPricing: bool)

  // ----- Building the log -----

  /** Snapshots are ordered by the text of their timestamps. */
  predicate NotAfter(a: ConfigSnapshot, b: ConfigSnapshot) {
    AtMost(a.timestamp, b.timestamp)
  }

  lemma NotAfterIsOrder()
    ensures IsOrder(NotAfter)
  {
    forall a, b
      ensures NotAfter(a, b) || NotAfter(b, a)
    {
      AtMostTotal(a.timestamp, b.timestamp);
    }
    forall a, b, c | NotAfter(a, b) && NotAfter(b, c)
      ensures NotAfter(a, c)
    {
      AtMostTransitive(a.timestamp, b.timestamp, c.timestamp);
    }
  }

  function EntryOf(d: FieldDiff, observed: ConfigSnapshot): HistoryEntry {
    HistoryEntry(d.path, observed.timestamp, observed.ledger, d.oldValue, d.newValue, d.isPricing)
  }

  /** The changes as observed in the newer snapshot. */
  function Stamped(diffs: seq<FieldDiff>, observed: ConfigSnapshot): seq<HistoryEntry> {
    if diffs == [] then [] else [EntryOf(diffs[0], observed)] + Stamped(diffs[1..], observed)
  }

  /** The log of snapshots already in order: each against its immediate predecessor. */
  function LogOf(sorted: seq<ConfigSnapshot>): seq<HistoryEntry> {
    if |sorted| < 2 then [] else Stamped(Changes(sorted[0], sorted[1]), sorted[1]) + LogOf(sorted[1..])
  }

  function ChangeLog(snapshots: seq<ConfigSnapshot>): seq<HistoryEntry> {
    LogOf(StableSort(snapshots, NotAfter))
  }

  method PushStamped(log: seq<HistoryEntry>, earlier: ConfigSnapshot, later: ConfigSnapshot)
    returns (pushed: seq<HistoryEntry>)
    ensures forall rest :: pushed + rest == log + (Stamped(Changes(earlier, later), later) + rest)
  {
    hide Changes;
    var diffs := DiffSnapshots(earlier, later);
    pushed := log;
    for i := 0 to |diffs|
      invariant pushed + Stamped(diffs[i..], later) == log + Stamped(diffs, later)
    {
      ghost var sofar := pushed;
      pushed := pushed + [EntryOf(diffs[i], later)];
      assert diffs[i..][1..] == diffs[i + 1..];
      assert sofar + ([EntryOf(diffs[i], later)] + Stamped(diffs[i + 1..], later))
               == pushed + Stamped(diffs[i + 1..], later);
    }
    assert diffs[|diffs|..] == [] && pushed + [] == pushed;
  }

  method BuildChangeLogFromSnapshots(snapshots: seq<ConfigSnapshot>) returns (log: seq<HistoryEntry>)
    ensures log == ChangeLog(snapshots)
  {
    hide Changes, Stamped, StableSort, NotAfter;
    var sorted := StableSort(snapshots, NotAfter);
    log := [];
    var k := 0;
    while k + 1 < |sorted|
      invariant 0 <= k <= |sorted|
      invariant log + LogOf(sorted[k..]) == LogOf(sorted)
    {
      log := PushStamped(log, sorted[k], sorted[k + 1]);
      assert sorted[k..][1..] == sorted[k + 1..];
      k := k + 1;
    }
    assert log + [] == log;
  }

  // ----- What an entry says -----

  /** A change of some field or setting between two neighbours, with the timestamp and the ledger of the
      later one. */
  ghost predicate IsEntryAt(e: HistoryEntry, sorted: seq<ConfigSnapshot>, k: nat) {
    && 1 <= k < |sorted|
    && e.timestamp == sorted[k].timestamp && e.ledger == sorted[k].ledger
    && exists kind: ChangeKind ::
         IsChange(FieldDiff(e.path, e.oldValue, e.newValue, e.isPricing, kind), sorted[k - 1], sorted[k])
  }

  lemma StampedHolds(earlier: ConfigSnapshot, later: ConfigSnapshot, e: HistoryEntry)
    ensures e in Stamped(Changes(earlier, later), later) <==> IsEntryAt(e, [earlier, later], 1)
  {
    hide Changes, IsChange, Stamped;
    var diffs := Changes(earlier, later);
    ChangesAreExact(earlier, later);
    StampedTimes(diffs, later);
    if e in Stamped(diffs, later) {
      var i :| 0 <= i < |diffs| && Stamped(diffs, later)[i] == e;
      assert diffs[i] in diffs;
      assert IsChange(FieldDiff(e.path, e.oldValue, e.newValue, e.isPricing, diffs[i].kind), earlier, later);
    }
    if IsEntryAt(e, [earlier, later], 1) {
      var kind: ChangeKind :| IsChange(FieldDiff(e.path, e.oldValue, e.newValue, e.isPricing, kind), earlier, later);
      var d := FieldDiff(e.path, e.oldValue, e.newValue, e.isPricing, kind);
      assert d in diffs;
      var i :| 0 <= i < |diffs| && diffs[i] == d;
      assert Stamped(diffs, later)[i] == e;
    }
  }

  /** The log of snapshots in order holds exactly the changes between neighbours, each with the
      timestamp and the ledger of the snapshot that shows it first. */
  lemma {:induction false} LogHolds(sorted: seq<ConfigSnapshot>, e: HistoryEntry)
    ensures e in LogOf(sorted) <==> exists k: nat :: IsEntryAt(e, sorted, k)
    decreases |sorted|
  {
    hide Changes, IsChange, Stamped;
    if |sorted| < 2 {
    } else {
      LogHolds(sorted[1..], e);
      StampedHolds(sorted[0], sorted[1], e);
      assert IsEntryAt(e, sorted, 1) <==> IsEntryAt(e, [sorted[0], sorted[1]], 1);
      forall k: nat | k >= 1
        ensures IsEntryAt(e, sorted[1..], k) <==> IsEntryAt(e, sorted, k + 1)
      {
        if k < |sorted[1..]| {
          assert sorted[1..][k] == sorted[k + 1] && sorted[1..][k - 1] == sorted[k];
        }
      }
      if k: nat :| IsEntryAt(e, sorted, k) && k > 1 {
        assert IsEntryAt(e, sorted[1..], k - 1);
      }
      if k: nat :| IsEntryAt(e, sorted[1..], k) {
        assert IsEntryAt(e, sorted, k + 1);
      }
    }
  }

  // ----- Text order and time order -----

  lemma {:induction false} StampedTimes(diffs: seq<FieldDiff>, observed: ConfigSnapshot)
    ensures |Stamped(diffs, observed)| == |diffs|
    ensures forall i :: 0 <= i < |diffs| ==> Stamped(diffs, observed)[i] == EntryOf(diffs[i], observed)
  {
    if diffs == [] {
    } else {
      StampedTimes(diffs[1..], observed);
    }
  }

  /** Ordered by the instants their timestamps name. */
  predicate IsChronological(sorted: seq<ConfigSnapshot>, instantOf: string -> int) {
    forall i, j :: 0 <= i < j < |sorted| ==> instantOf(sorted[i].timestamp) <= instantOf(sorted[j].timestamp)
  }

  /** The log is documented to be chronological. Its snapshots are in order of time exactly when no
      two of those given have timestamps whose text says otherwise. */
  lemma LogIsChronologicalIff(snapshots: seq<ConfigSnapshot>, instantOf: string -> int)
    ensures IsChronological(StableSort(snapshots, NotAfter), instantOf) <==>
              forall a, b :: a in snapshots && b in snapshots && Before(a.timestamp, b.timestamp)
                ==> instantOf(a.timestamp) <= instantOf(b.timestamp)
  {
    hide AtMost, StableSort;
    var sorted := StableSort(snapshots, NotAfter);
    NotAfterIsOrder();
    SortElements(snapshots, NotAfter);
    SortSorts(snapshots, NotAfter);
    SameMembers(sorted, snapshots);
    if IsChronological(sorted, instantOf) {
      forall a, b | a in snapshots && b in snapshots && Before(a.timestamp, b.timestamp)
        ensures instantOf(a.timestamp) <= instantOf(b.timestamp)
      {
        assert a in sorted && b in sorted;
        var i :| 0 <= i < |sorted| && sorted[i] == a;
        var j :| 0 <= j < |sorted| && sorted[j] == b;
        SortedPair(sorted, NotAfter, j, i);
      }
    } else {
      var i, j :| 0 <= i < j < |sorted| && instantOf(sorted[i].timestamp) > instantOf(sorted[j].timestamp);
      assert sorted[i] in sorted && sorted[j] in sorted;
      assert NotAfter(sorted[i], sorted[j]);
      if AtMost(sorted[j].timestamp, sorted[i].timestamp) {
        AtMostAntisymmetric(sorted[i].timestamp, sorted[j].timestamp);
      }
    }
  }

  predicate InTime(log: seq<HistoryEntry>, instantOf: string -> int) {
    forall i, j :: 0 <= i < j < |log| ==> instantOf(log[i].timestamp) <= instantOf(log[j].timestamp)
  }

  /** And then the entries of the log are in order of time as well. */
  lemma {:induction false} EntriesAreChronological(sorted: seq<ConfigSnapshot>, instantOf: string -> int)
    requires IsChronological(sorted, instantOf)
    ensures InTime(LogOf(sorted), instantOf)
    ensures forall i :: 0 <= i < |LogOf(sorted)| ==>
              instantOf(sorted[0].timestamp) <= instantOf(LogOf(sorted)[i].timestamp)
  {
    hide Changes, Stamped;
    if |sorted| >= 2 {
      var first, rest := Stamped(Changes(sorted[0], sorted[1]), sorted[1]), LogOf(sorted[1..]);
      StampedTimes(Changes(sorted[0], sorted[1]), sorted[1]);
      assert forall i :: 0 <= i < |first| ==> first[i].timestamp == sorted[1].timestamp;
      EntriesAreChronological(sorted[1..], instantOf);
      var log := first + rest;
      assert LogOf(sorted) == log;
      forall i | 0 <= i < |log|
        ensures instantOf(sorted[1].timestamp) <= instantOf(log[i].timestamp)
        ensures i < |first| ==> instantOf(log[i].timestamp) == instantOf(sorted[1].timestamp)
      {
        if i >= |first| {
          assert log[i] == rest[i - |first|];
        }
      }
      assert instantOf(sorted[0].timestamp) <= instantOf(sorted[1].timestamp);
      forall i, j | 0 <= i < j < |log|
        ensures instantOf(log[i].timestamp) <= instantOf(log[j].timestamp)
      {
        if i >= |first| {
          assert log[i] == rest[i - |first|] && log[j] == rest[j - |first|];
        }
      }
    }
  }

  /** Snapshots whose timestamps carry one numeric offset, as the tool writes them, are in order. */
  lemma OneOffsetIsChronological(snapshots: seq<ConfigSnapshot>, stampOf: ConfigSnapshot -> SnapshotNames.Stamp,
                                 instantOf: string -> int)
    requires forall c :: c in snapshots ==>
               && Timestamps.IsMoment(stampOf(c)) && !stampOf(c).offset.Zulu?
               && c.timestamp == SnapshotNames.StampText(stampOf(c))
               && instantOf(c.timestamp) == Timestamps.Instant(stampOf(c))
    requires forall a, b :: a in snapshots && b in snapshots ==> stampOf(a).offset == stampOf(b).offset
    ensures IsChronological(StableSort(snapshots, NotAfter), instantOf)
  {
    hide SnapshotNames.StampText, Timestamps.Instant, Timestamps.IsMoment, AtMost, StableSort, IsChronological;
    LogIsChronologicalIff(snapshots, instantOf);
    forall a, b | a in snapshots && b in snapshots && Before(a.timestamp, b.timestamp)
      ensures instantOf(a.timestamp) <= instantOf(b.timestamp)
    {
      AtMostTotal(a.timestamp, b.timestamp);
      Timestamps.NumericOffsetsSortByTime(stampOf(a), stampOf(b));
    }
  }

  /** Offsets that differ can put the log out of order: an earlier snapshot is taken for the later. */
  lemma OffsetsMisorderTheLog(a: ConfigSnapshot, b: ConfigSnapshot, instantOf: string -> int)
    requires var x := Timestamps.NewYearAt("01", "00", "00", SnapshotNames.Ahead("02", "00"));
             var y := Timestamps.NewYearAt("00", "30", "00", SnapshotNames.Ahead("00", "00"));
             && a.timestamp == SnapshotNames.StampText(x) && b.timestamp == SnapshotNames.StampText(y)
             && (Timestamps.IsMoment(x) && Timestamps.IsMoment(y) ==>
                   instantOf(a.timestamp) == Timestamps.Instant(x) && instantOf(b.timestamp) == Timestamps.Instant(y))
    ensures instantOf(a.timestamp) < instantOf(b.timestamp) && !IsChronological(StableSort([a, b], NotAfter), instantOf)
  {
    hide SnapshotNames.StampText, Timestamps.Instant, Timestamps.IsMoment, AtMost, StableSort;
    Timestamps.OffsetsBreakTheOrder(Timestamps.NewYearAt("01", "00", "00", SnapshotNames.Ahead("02", "00")),
                                    Timestamps.NewYearAt("00", "30", "00", SnapshotNames.Ahead("00", "00")));
    LogIsChronologicalIff([a, b], instantOf);
    assert a in [a, b] && b in [a, b];
  }

  predicate IsNewest(snapshots: seq<ConfigSnapshot>, c: ConfigSnapshot, instantOf: string -> int) {
    c in snapshots && forall d :: d in snapshots ==> instantOf(d.timestamp) <= instantOf(c.timestamp)
  }

  predicate IsOldest(snapshots: seq<ConfigSnapshot>, c: ConfigSnapshot, instantOf: string -> int) {
    c in snapshots && forall d :: d in snapshots ==> instantOf(c.timestamp) <= instantOf(d.timestamp)
  }

  predicate HasLastText(snapshots: seq<ConfigSnapshot>, c: ConfigSnapshot) {
    c in snapshots && forall d :: d in snapshots ==> AtMost(d.timestamp, c.timestamp)
  }

  predicate HasFirstText(snapshots: seq<ConfigSnapshot>, c: ConfigSnapshot) {
    c in snapshots && forall d :: d in snapshots ==> AtMost(c.timestamp, d.timestamp)
  }

  lemma EndsHaveExtremeTexts(snapshots: seq<ConfigSnapshot>)
    requires snapshots != []
    ensures var sorted := StableSort(snapshots, NotAfter);
            && |sorted| == |snapshots|
            && HasFirstText(snapshots, sorted[0]) && HasLastText(snapshots, sorted[|sorted| - 1])
  {
    hide AtMost, StableSort;
    var sorted := StableSort(snapshots, NotAfter);
    NotAfterIsOrder();
    SortElements(snapshots, NotAfter);
    SortSorts(snapshots, NotAfter);
    SameMembers(sorted, snapshots);
    var n := |sorted| - 1;
    assert sorted[0] in sorted && sorted[n] in sorted;
    forall d | d in snapshots
      ensures AtMost(sorted[0].timestamp, d.timestamp) && AtMost(d.timestamp, sorted[n].timestamp)
    {
      assert d in sorted;
      var k :| 0 <= k < |sorted| && sorted[k] == d;
      AtMostTotal(d.timestamp, d.timestamp);
      SortedPair(sorted, NotAfter, 0, k);
      SortedPair(sorted, NotAfter, k, n);
    }
  }

  /** The snapshot the log ends with is newest in time exactly when some snapshot has both the last
      timestamp text and the latest instant; and the one it starts from likewise. */
  lemma EndsAreExtremeIff(snapshots: seq<ConfigSnapshot>, instantOf: string -> int)
    requires snapshots != []
    ensures var sorted := StableSort(snapshots, NotAfter);
            && |sorted| == |snapshots|
            && (IsNewest(snapshots, sorted[|sorted| - 1], instantOf) <==>
                  exists c :: HasLastText(snapshots, c) && IsNewest(snapshots, c, instantOf))
            && (IsOldest(snapshots, sorted[0], instantOf) <==>
                  exists c :: HasFirstText(snapshots, c) && IsOldest(snapshots, c, instantOf))
  {
    hide AtMost, StableSort;
    var sorted := StableSort(snapshots, NotAfter);
    EndsHaveExtremeTexts(snapshots);
    var first, last := sorted[0], sorted[|sorted| - 1];
    forall c | HasLastText(snapshots, c)
      ensures c.timestamp == last.timestamp
    {
      AtMostAntisymmetric(c.timestamp, last.timestamp);
    }
    forall c | HasFirstText(snapshots, c)
      ensures c.timestamp == first.timestamp
    {
      AtMostAntisymmetric(c.timestamp, first.timestamp);
    }
  }

  /** In a log that is in order of time they are. */
  lemma ChronologicalEnds(snapshots: seq<ConfigSnapshot>, instantOf: string -> int)
    requires snapshots != [] && IsChronological(StableSort(snapshots, NotAfter), instantOf)
    ensures var sorted := StableSort(snapshots, NotAfter);
            && |sorted| == |snapshots|
            && IsOldest(snapshots, sorted[0], instantOf) && IsNewest(snapshots, sorted[|sorted| - 1], instantOf)
  {
    hide StableSort, NotAfter;
    var sorted := StableSort(snapshots, NotAfter);
    SortElements(snapshots, NotAfter);
    SameMembers(sorted, snapshots);
    var n := |sorted| - 1;
    assert sorted[0] in sorted && sorted[n] in sorted;
    forall d | d in snapshots
      ensures instantOf(sorted[0].timestamp) <= instantOf(d.timestamp) <= instantOf(sorted[n].timestamp)
    {
      assert d in sorted;
      var k :| 0 <= k < |sorted| && sorted[k] == d;
    }
  }

  // ----- One setting's part of the log -----

  function OfSetting(s: Setting): HistoryEntry -> bool {
    (e: HistoryEntry) => e.path.setting == s
  }

  function SettingLog(s: Setting, sorted: seq<ConfigSnapshot>): seq<HistoryEntry> {
    if |sorted| < 2 then []
    else Stamped(SettingChanges(s, sorted[0], sorted[1]), sorted[1]) + SettingLog(s, sorted[1..])
  }

  lemma {:induction false} StampedConcat(a: seq<FieldDiff>, b: seq<FieldDiff>, observed: ConfigSnapshot)
    ensures Stamped(a + b, observed) == Stamped(a, observed) + Stamped(b, observed)
  {
    hide EntryOf;
    if a == [] {
      assert a + b == b;
    } else {
      StampedConcat(a[1..], b, observed);
      assert (a + b)[0] == a[0] && (a + b)[1..] == a[1..] + b;
      var first := [EntryOf(a[0], observed)];
      assert first + (Stamped(a[1..], observed) + Stamped(b, observed))
               == first + Stamped(a[1..], observed) + Stamped(b, observed);
    }
  }

  lemma {:induction false} StampedSetting(s: Setting, diffs: seq<FieldDiff>, observed: ConfigSnapshot)
    requires forall i :: 0 <= i < |diffs| ==> diffs[i].path.setting == s
    ensures |Stamped(diffs, observed)| == |diffs|
    ensures forall i :: 0 <= i < |diffs| ==> Stamped(diffs, observed)[i].path.setting == s
  {
    if diffs == [] {
    } else {
      StampedSetting(s, diffs[1..], observed);
    }
  }

  lemma {:induction false} FilterChanges(s: Setting, settings: seq<Setting>, earlier: ConfigSnapshot,
                                         later: ConfigSnapshot)
    requires forall i, j :: 0 <= i < j < |settings| ==> settings[i] != settings[j]
    ensures Filter(Stamped(ChangesFrom(settings, earlier, later), later), OfSetting(s))
         == if s in settings then Stamped(SettingChanges(s, earlier, later), later) else []
  {
    hide SettingChanges;
    if settings == [] {
    } else {
      var first := SettingChanges(settings[0], earlier, later);
      var rest := ChangesFrom(settings[1..], earlier, later);
      FilterChanges(s, settings[1..], earlier, later);
      SettingChangesInOrder(settings[0], earlier, later);
      StampedSetting(settings[0], first, later);
      StampedConcat(first, rest, later);
      FilterConcat(Stamped(first, later), Stamped(rest, later), OfSetting(s));
      assert settings == [settings[0]] + settings[1..];
      if settings[0] == s {
        FilterAll(Stamped(first, later), OfSetting(s));
        assert s !in settings[1..];
        assert Stamped(first, later) + [] == Stamped(first, later);
      } else {
        FilterNone(Stamped(first, later), OfSetting(s));
      }
    }
  }

  lemma {:induction false} FilterLog(s: Setting, sorted: seq<ConfigSnapshot>)
    ensures Filter(LogOf(sorted), OfSetting(s)) == SettingLog(s, sorted)
  {
    hide SettingChanges, ChangesFrom;
    if |sorted| >= 2 {
      FilterLog(s, sorted[1..]);
      FilterConcat(Stamped(Changes(sorted[0], sorted[1]), sorted[1]), LogOf(sorted[1..]), OfSetting(s));
      FilterChanges(s, SETTINGS, sorted[0], sorted[1]);
      assert s in SETTINGS by { EverySetting(s); }
    }
  }

  // ----- Replaying -----

  /** A setting's compared values as the log shows them. */
  function Texts(values: seq<int>): (texts: seq<string>)
    ensures |texts| == |values|
    ensures forall i :: 0 <= i < |values| ==> texts[i] == IntText(values[i])
  {
    seq(|values|, i requires 0 <= i < |values| => IntText(values[i]))
  }

  function Replay(view: seq<string>, log: seq<HistoryEntry>): (r: seq<string>)
    ensures |r| == |view|
    decreases |log|
  {
    if log == [] then view
    else
      var p := log[0].path;
      Replay(if p.Field? && p.index < |view| then view[p.index := log[0].newValue] else view, log[1..])
  }

  /** Every entry takes its field from the value the entries before it left there to another one. */
  predicate Telescopes(view: seq<string>, log: seq<HistoryEntry>)
    decreases |log|
  {
    log == [] ||
    (var e := log[0];
     && e.path.Field? && e.path.index < |view|
     && view[e.path.index] == e.oldValue != e.newValue
     && Telescopes(view[e.path.index := e.newValue], log[1..]))
  }

  lemma {:induction false} TelescopesConcat(view: seq<string>, a: seq<HistoryEntry>, b: seq<HistoryEntry>)
    ensures Replay(view, a + b) == Replay(Replay(view, a), b)
    ensures Telescopes(view, a + b) <==> Telescopes(view, a) && Telescopes(Replay(view, a), b)
    decreases |a|
  {
    if a == [] {
      assert a + b == b;
    } else {
      assert (a + b)[1..] == a[1..] + b;
      var p := a[0].path;
      TelescopesConcat(if p.Field? && p.index < |view| then view[p.index := a[0].newValue] else view, a[1..], b);
    }
  }

  lemma {:induction false} ValueChangesReplay(s: Setting, a: seq<int>, b: seq<int>, i: nat, view: seq<string>,
                                              observed: ConfigSnapshot)
    requires |a| == |b| == |view| && i <= |a|
    requires forall k :: 0 <= k < i ==> view[k] == IntText(b[k])
    requires forall k :: i <= k < |a| ==> view[k] == IntText(a[k])
    ensures var log := Stamped(ValueChanges(s, a, b, i), observed);
            Telescopes(view, log) && Replay(view, log) == Texts(b)
    decreases |a| - i
  {
    hide IntText;
    if i < |a| {
      if a[i] != b[i] {
        IntTextDiffers(a[i], b[i]);
        var rest := ValueChanges(s, a, b, i + 1);
        assert ([ValueDiff(s, i, a[i], b[i])] + rest)[1..] == rest;
        ValueChangesReplay(s, a, b, i + 1, view[i := IntText(b[i])], observed);
        var log := Stamped(ValueChanges(s, a, b, i), observed);
        assert log[1..] == Stamped(rest, observed);
      } else {
        ValueChangesReplay(s, a, b, i + 1, view, observed);
      }
    } else {
      assert view == Texts(b);
    }
  }

  lemma IntTextDiffers(i: int, j: int)
    requires i != j
    ensures IntText(i) != IntText(j)
  {
    if IntText(i) == IntText(j) {
      IntTextInjective(i, j);
    }
  }

  /** Through snapshots that all carry a setting, its part of the log telescopes: every entry's old
      value is what the entries before it left, and replaying it over the first snapshot's values
      gives the last one's. */
  lemma {:induction false} SettingLogReplays(s: Setting, sorted: seq<ConfigSnapshot>)
    requires sorted != []
    requires forall i :: 0 <= i < |sorted| ==> Compared(sorted[i], s).Some?
    ensures var oldest, newest := Texts(Compared(sorted[0], s).value), Texts(Compared(sorted[|sorted| - 1], s).value);
            && Telescopes(oldest, SettingLog(s, sorted))
            && Replay(oldest, SettingLog(s, sorted)) == newest
    decreases |sorted|
  {
    hide Compared, FieldNames, ValueChanges, Stamped, IntText;
    if |sorted| >= 2 {
      var a, b := Compared(sorted[0], s).value, Compared(sorted[1], s).value;
      var first := Stamped(SettingChanges(s, sorted[0], sorted[1]), sorted[1]);
      ValueChangesReplay(s, a, b, 0, Texts(a), sorted[1]);
      SettingLogReplays(s, sorted[1..]);
      TelescopesConcat(Texts(a), first, SettingLog(s, sorted[1..]));
    }
  }

  lemma {:induction false} AbsentFromSettingLog(s: Setting, sorted: seq<ConfigSnapshot>)
    requires forall i :: 0 <= i < |sorted| ==> Compared(sorted[i], s).None?
    ensures SettingLog(s, sorted) == []
  {
    hide Compared, FieldNames;
    if |sorted| >= 2 {
      AbsentFromSettingLog(s, sorted[1..]);
    }
  }

  /** A setting no snapshot carries never appears in the log. */
  lemma AbsentSettingIsSilent(snapshots: seq<ConfigSnapshot>, s: Setting)
    requires forall c :: c in snapshots ==> Compared(c, s).None?
    ensures Filter(ChangeLog(snapshots), OfSetting(s)) == []
    ensures forall e :: e in ChangeLog(snapshots) ==> e.path.setting != s
  {
    hide Compared, FieldNames, LogOf, SettingLog, StableSort, Filter;
    var sorted := StableSort(snapshots, NotAfter);
    SortElements(snapshots, NotAfter);
    SameMembers(sorted, snapshots);
    forall i | 0 <= i < |sorted|
      ensures Compared(sorted[i], s).None?
    {
      assert sorted[i] in sorted;
    }
    FilterLog(s, sorted);
    AbsentFromSettingLog(s, sorted);
    forall e | e in ChangeLog(snapshots)
      ensures e.path.setting != s
    {
      FilterMembers(ChangeLog(snapshots), OfSetting(s), e);
    }
  }

  /** The whole log, setting by setting: for every setting present in all of a network's snapshots,
      the log's entries for it lead from the values of the snapshot the log sorts first to those of
      the one it sorts last. */
  lemma ChangeLogTelescopes(snapshots: seq<ConfigSnapshot>, s: Setting)
    requires snapshots != []
    requires forall c :: c in snapshots ==> Compared(c, s).Some?
    ensures var sorted := StableSort(snapshots, NotAfter);
            && |sorted| == |snapshots| && Sorted(sorted, NotAfter) && multiset(sorted) == multiset(snapshots)
            && (forall c :: c in sorted ==> Compared(c, s).Some?)
            && (var oldest := Texts(Compared(sorted[0], s).value);
                var newest := Texts(Compared(sorted[|sorted| - 1], s).value);
                var log := Filter(ChangeLog(snapshots), OfSetting(s));
                Telescopes(oldest, log) && Replay(oldest, log) == newest)
  {
    hide Compared, FieldNames, IntText, LogOf, SettingLog;
    var sorted := StableSort(snapshots, NotAfter);
    NotAfterIsOrder();
    SortElements(snapshots, NotAfter);
    SortSorts(snapshots, NotAfter);
    SameMembers(sorted, snapshots);
    forall i | 0 <= i < |sorted|
      ensures Compared(sorted[i], s).Some?
    {
      assert sorted[i] in sorted;
    }
    FilterLog(s, sorted);
    SettingLogReplays(s, sorted);
  }

  lemma {:induction false} SettingLogSplits(s: Setting, sorted: seq<ConfigSnapshot>, k: nat)
    requires k < |sorted|
    ensures SettingLog(s, sorted) == SettingLog(s, sorted[..k + 1]) + SettingLog(s, sorted[k..])
    decreases k
  {
    hide SettingChanges, Stamped;
    if k == 0 {
      assert sorted[0..] == sorted;
    } else {
      SettingLogSplits(s, sorted[1..], k - 1);
      assert sorted[..k + 1][1..] == sorted[1..][..k];
      assert sorted[k..] == sorted[1..][k - 1..];
    }
  }

  /** A setting may come and go. Each stretch of snapshots that carry it has its own part of the log,
      and that part telescopes from the stretch's first snapshot to its last. */
  lemma StretchTelescopes(snapshots: seq<ConfigSnapshot>, s: Setting, i: nat, j: nat)
    requires i <= j < |StableSort(snapshots, NotAfter)|
    requires forall k :: i <= k <= j ==> Compared(StableSort(snapshots, NotAfter)[k], s).Some?
    ensures var sorted := StableSort(snapshots, NotAfter);
            var stretch := SettingLog(s, sorted[i..j + 1]);
            var first, last := Texts(Compared(sorted[i], s).value), Texts(Compared(sorted[j], s).value);
            && Filter(ChangeLog(snapshots), OfSetting(s))
               == SettingLog(s, sorted[..i + 1]) + stretch + SettingLog(s, sorted[j..])
            && Telescopes(first, stretch) && Replay(first, stretch) == last
  {
    hide Compared, FieldNames, IntText, LogOf, SettingLog, StableSort, NotAfter, Telescopes, Replay, Texts;
    var sorted := StableSort(snapshots, NotAfter);
    FilterLog(s, sorted);
    SettingLogSplits(s, sorted, j);
    SettingLogSplits(s, sorted[..j + 1], i);
    assert sorted[..j + 1][..i + 1] == sorted[..i + 1] && sorted[..j + 1][i..] == sorted[i..j + 1];
    SettingLogReplays(s, sorted[i..j + 1]);
  }

  /** Whether the setting is there after the entries, if it was before them or not. */
  function PresentAfter(present: bool, log: seq<HistoryEntry>): bool
    decreases |log|
  {
    if log == [] then present else PresentAfter(if log[0].path.Whole? then !present else present, log[1..])
  }

  /** Fields change only while the setting is there, and it is removed only then, and added only while
      it is not. */
  predicate Alternates(present: bool, log: seq<HistoryEntry>)
    decreases |log|
  {
    log == [] ||
    (var e := log[0];
     match e.path
     case Field(_, _) => present && Alternates(present, log[1..])
     case Whole(_) =>
       && e.oldValue == (if present then "(present)" else "(missing)")
       && e.newValue == (if present then "(missing)" else "(present)")
       && Alternates(!present, log[1..]))
  }

  lemma {:induction false} AlternatesConcat(present: bool, a: seq<HistoryEntry>, b: seq<HistoryEntry>)
    ensures PresentAfter(present, a + b) == PresentAfter(PresentAfter(present, a), b)
    ensures Alternates(present, a + b) <==> Alternates(present, a) && Alternates(PresentAfter(present, a), b)
    decreases |a|
  {
    if a == [] {
      assert a + b == b;
    } else {
      assert (a + b)[1..] == a[1..] + b;
      AlternatesConcat(if a[0].path.Whole? then !present else present, a[1..], b);
    }
  }

  lemma {:induction false} FieldsAlternate(diffs: seq<FieldDiff>, observed: ConfigSnapshot)
    requires forall k :: 0 <= k < |diffs| ==> diffs[k].path.Field?
    ensures Alternates(true, Stamped(diffs, observed)) && PresentAfter(true, Stamped(diffs, observed))
  {
    if diffs == [] {
    } else {
      FieldsAlternate(diffs[1..], observed);
    }
  }

  lemma StepAlternates(s: Setting, earlier: ConfigSnapshot, later: ConfigSnapshot)
    ensures var before, step := Compared(earlier, s).Some?, Stamped(SettingChanges(s, earlier, later), later);
            Alternates(before, step) && PresentAfter(before, step) == Compared(later, s).Some?
  {
    hide Compared, FieldNames, ValueChanges;
    match (Compared(earlier, s), Compared(later, s))
    case (Some(a), Some(b)) =>
      ValueChangesInOrder(s, a, b, 0);
      FieldsAlternate(ValueChanges(s, a, b, 0), later);
    case (None, Some(_)) =>
      assert Stamped([PresenceDiff(s, true)], later) == [EntryOf(PresenceDiff(s, true), later)];
    case (Some(_), None) =>
      assert Stamped([PresenceDiff(s, false)], later) == [EntryOf(PresenceDiff(s, false), later)];
    case (None, None) =>
  }

  lemma {:induction false} SettingLogAlternates(s: Setting, sorted: seq<ConfigSnapshot>)
    requires sorted != []
    ensures Alternates(Compared(sorted[0], s).Some?, SettingLog(s, sorted))
    ensures PresentAfter(Compared(sorted[0], s).Some?, SettingLog(s, sorted)) == Compared(sorted[|sorted| - 1], s).Some?
    decreases |sorted|
  {
    hide Compared, FieldNames, SettingChanges, Stamped;
    if |sorted| == 1 {
    } else {
      var first := Stamped(SettingChanges(s, sorted[0], sorted[1]), sorted[1]);
      StepAlternates(s, sorted[0], sorted[1]);
      SettingLogAlternates(s, sorted[1..]);
      AlternatesConcat(Compared(sorted[0], s).Some?, first, SettingLog(s, sorted[1..]));
    }
  }

  /** Over any snapshots, a setting's presence entries in the log alternate, field entries fall only
      where it is present, and the entries lead from its presence in the log's first snapshot to that
      in its last. */
  lemma PresenceAlternates(snapshots: seq<ConfigSnapshot>, s: Setting)
    requires snapshots != []
    ensures var sorted, log := StableSort(snapshots, NotAfter), Filter(ChangeLog(snapshots), OfSetting(s));
            && |sorted| == |snapshots|
            && Alternates(Compared(sorted[0], s).Some?, log)
            && PresentAfter(Compared(sorted[0], s).Some?, log) == Compared(sorted[|sorted| - 1], s).Some?
  {
    hide Compared, FieldNames, LogOf, SettingLog, StableSort, NotAfter, Alternates, PresentAfter;
    var sorted := StableSort(snapshots, NotAfter);
    SortElements(snapshots, NotAfter);
    FilterLog(s, sorted);
    SettingLogAlternates(s, sorted);
  }

  lemma {:induction false} ReplayUntouched(view: seq<string>, log: seq<HistoryEntry>, index: nat)
    requires index < |view|
    requires forall k :: 0 <= k < |log| ==> !(log[k].path.Field? && log[k].path.index == index)
    ensures Replay(view, log)[index] == view[index]
    decreases |log|
  {
    if log == [] {
    } else {
      var p := log[0].path;
      ReplayUntouched(if p.Field? && p.index < |view| then view[p.index := log[0].newValue] else view, log[1..], index);
    }
  }

  /** In a telescoping log, two entries for a field with none between them meet: the later one's old
      value is the earlier one's new value. */
  lemma NeighboursMeet(view: seq<string>, before: seq<HistoryEntry>, a: HistoryEntry, between: seq<HistoryEntry>,
                       b: HistoryEntry, after: seq<HistoryEntry>)
    requires Telescopes(view, before + ([a] + (between + ([b] + after))))
    requires a.path.Field? && b.path.Field? && a.path.index == b.path.index
    requires forall k :: 0 <= k < |between| ==> !(between[k].path.Field? && between[k].path.index == a.path.index)
    ensures b.oldValue == a.newValue
  {
    var tail := between + ([b] + after);
    TelescopesConcat(view, before, [a] + tail);
    var here := Replay(view, before);
    assert ([a] + tail)[1..] == tail;
    var next := here[a.path.index := a.newValue];
    TelescopesConcat(next, between, [b] + after);
    ReplayUntouched(next, between, a.path.index);
  }

  // ----- Last changed -----

  /** The entry kept for `p`: a later one replaces it only with a strictly greater timestamp. */
  function LatestFor(log: seq<HistoryEntry>, p: Path): Option<HistoryEntry>
    decreases |log|
  {
    if log == [] then None
    else
      var e, before := log[|log| - 1], LatestFor(log[..|log| - 1], p);
      if e.path == p && (before.None? || Before(before.value.timestamp, e.timestamp)) then Some(e) else before
  }

  /** The last entry of the log for `p`. */
  function LastFor(log: seq<HistoryEntry>, p: Path): Option<HistoryEntry>
    decreases |log|
  {
    if log == [] then None
    else if log[|log| - 1].path == p then Some(log[|log| - 1])
    else LastFor(log[..|log| - 1], p)
  }

  predicate PathNotAfter(a: HistoryEntry, b: HistoryEntry) {
    AtMost(PathText(a.path), PathText(b.path))
  }

  lemma PathNotAfterIsOrder()
    ensures IsOrder(PathNotAfter)
  {
    hide PathText;
    forall a, b
      ensures PathNotAfter(a, b) || PathNotAfter(b, a)
    {
      AtMostTotal(PathText(a.path), PathText(b.path));
    }
    forall a, b, c | PathNotAfter(a, b) && PathNotAfter(b, c)
      ensures PathNotAfter(a, c)
    {
      AtMostTransitive(PathText(a.path), PathText(b.path), PathText(c.path));
    }
  }

  lemma {:induction false} LatestForPaths(log: seq<HistoryEntry>, p: Path)
    ensures LatestFor(log, p).Some? ==> LatestFor(log, p).value.path == p
    ensures LatestFor(log, p).Some? <==> exists i :: 0 <= i < |log| && log[i].path == p
    decreases |log|
  {
    if log == [] {
    } else {
      LatestForPaths(log[..|log| - 1], p);
    }
  }

  /** One entry per field that ever changed, in field order. */
  method LastChangedFromLog(entries: seq<HistoryEntry>) returns (result: seq<HistoryEntry>)
    ensures forall e :: e in result <==> LatestFor(entries, e.path) == Some(e)
    ensures |result| == |set e | e in entries :: e.path|
    ensures Sorted(result, PathNotAfter)
  {
    hide PathText, AtMost, PathNotAfter;
    var latest: map<Path, HistoryEntry> := map[];
    for i := 0 to |entries|
      invariant forall p :: LatestFor(entries[..i], p) == if p in latest then Some(latest[p]) else None
    {
      var e := entries[i];
      assert entries[..i + 1][..i] == entries[..i];
      if e.path !in latest || Before(latest[e.path].timestamp, e.timestamp) {
        latest := latest[e.path := e];
      }
    }
    assert entries[..|entries|] == entries;
    forall p
      ensures p in latest <==> exists i :: 0 <= i < |entries| && entries[i].path == p
      ensures p in latest ==> latest[p].path == p
    {
      LatestForPaths(entries, p);
    }
    assert latest.Keys == set e | e in entries :: e.path;
    result := InPathOrder(latest);
  }

  method InPathOrder(latest: map<Path, HistoryEntry>) returns (result: seq<HistoryEntry>)
    requires forall p :: p in latest ==> latest[p].path == p
    ensures forall e :: e in result <==> e.path in latest && e == latest[e.path]
    ensures |result| == |latest.Keys|
    ensures Sorted(result, PathNotAfter)
  {
    hide PathNotAfter;
    result := [];
    var rest := latest.Keys;
    while rest != {}
      invariant rest <= latest.Keys
      invariant |result| == |latest.Keys| - |rest|
      invariant forall e :: e in result <==> e.path in latest.Keys - rest && e == latest[e.path]
      decreases |rest|
    {
      var p :| p in rest;
      result := result + [latest[p]];
      rest := rest - {p};
    }
    PathNotAfterIsOrder();
    SortSorts(result, PathNotAfter);
    SortElements(result, PathNotAfter);
    SameMembers(result, StableSort(result, PathNotAfter));
    result := StableSort(result, PathNotAfter);
  }

  /** The first entry for `p` among those with the greatest timestamp. */
  predicate IsFirstGreatest(log: seq<HistoryEntry>, p: Path, i: nat) {
    && i < |log| && log[i].path == p
    && (forall j :: 0 <= j < |log| && log[j].path == p ==> AtMost(log[j].timestamp, log[i].timestamp))
    && (forall j :: 0 <= j < i && log[j].path == p ==> Before(log[j].timestamp, log[i].timestamp))
  }

  lemma FirstGreatestUnique(log: seq<HistoryEntry>, p: Path, i: nat, j: nat)
    requires IsFirstGreatest(log, p, i) && IsFirstGreatest(log, p, j)
    ensures i == j
  {
    hide AtMost;
    assert AtMost(log[i].timestamp, log[j].timestamp) && AtMost(log[j].timestamp, log[i].timestamp);
  }

  /** What is kept for a field is the first of its entries with the greatest timestamp. */
  lemma LatestIsFirstGreatest(log: seq<HistoryEntry>, p: Path)
    ensures LatestFor(log, p).None? <==> forall j :: 0 <= j < |log| ==> log[j].path != p
    ensures forall i: nat :: IsFirstGreatest(log, p, i) ==> LatestFor(log, p) == Some(log[i])
    ensures LatestFor(log, p).Some? ==> exists i: nat :: IsFirstGreatest(log, p, i)
  {
    hide IsFirstGreatest, LatestFor;
    LatestForPaths(log, p);
    if LatestFor(log, p).Some? {
      var i := FirstGreatest(log, p);
      forall j: nat | IsFirstGreatest(log, p, j)
        ensures i == j
      {
        FirstGreatestUnique(log, p, i, j);
      }
    } else {
      forall i: nat
        ensures !IsFirstGreatest(log, p, i)
      {
        FirstGreatestHasPath(log, p, i);
      }
    }
  }

  lemma FirstGreatestHasPath(log: seq<HistoryEntry>, p: Path, i: nat)
    ensures IsFirstGreatest(log, p, i) ==> i < |log| && log[i].path == p
  {
  }

  lemma {:induction false} FirstGreatest(log: seq<HistoryEntry>, p: Path) returns (i: nat)
    requires LatestFor(log, p).Some?
    ensures IsFirstGreatest(log, p, i) && i < |log| && LatestFor(log, p) == Some(log[i])
    decreases |log|
  {
    hide AtMost, Before, IsFirstGreatest;
    var n := |log| - 1;
    var prefix, e := log[..n], log[n];
    assert log == prefix + [e];
    if LatestFor(prefix, p).None? {
      i := n;
      LatestForPaths(prefix, p);
      FirstIsGreatest(prefix, e, p);
    } else {
      i := FirstGreatest(prefix, p);
      FirstGreatestExtends(prefix, e, p, i);
      if e.path == p && Before(prefix[i].timestamp, e.timestamp) {
        i := n;
      }
    }
  }

  lemma FirstIsGreatest(prefix: seq<HistoryEntry>, e: HistoryEntry, p: Path)
    requires e.path == p && forall j :: 0 <= j < |prefix| ==> prefix[j].path != p
    ensures IsFirstGreatest(prefix + [e], p, |prefix|)
  {
    hide AtMost;
    AtMostTotal(e.timestamp, e.timestamp);
  }

  /** One more entry either takes over, with a strictly greater timestamp, or changes nothing. */
  lemma FirstGreatestExtends(prefix: seq<HistoryEntry>, e: HistoryEntry, p: Path, k: nat)
    requires k < |prefix| && IsFirstGreatest(prefix, p, k)
    ensures IsFirstGreatest(prefix + [e], p,
                            if e.path == p && Before(prefix[k].timestamp, e.timestamp) then |prefix| else k)
  {
    hide AtMost;
    AtMostTotal(e.timestamp, e.timestamp);
    if e.path == p && Before(prefix[k].timestamp, e.timestamp) {
      forall j | 0 <= j < |prefix| && prefix[j].path == p
        ensures Before(prefix[j].timestamp, e.timestamp) && AtMost(prefix[j].timestamp, e.timestamp)
      {
        AtMostTotal(prefix[j].timestamp, e.timestamp);
        if AtMost(e.timestamp, prefix[j].timestamp) {
          AtMostTransitive(e.timestamp, prefix[j].timestamp, prefix[k].timestamp);
        }
      }
    }
  }

  /** Whether the last entry for `p` stands out: every different one is strictly earlier by
      timestamp, or at the same timestamp comes after an equal of the last. */
  predicate LastStandsOut(log: seq<HistoryEntry>, p: Path) {
    var last := LastFor(log, p);
    last.Some? ==> forall j :: 0 <= j < |log| && log[j].path == p && log[j] != last.value ==>
      || Before(log[j].timestamp, last.value.timestamp)
      || (log[j].timestamp == last.value.timestamp && exists i :: 0 <= i < j && log[i] == last.value)
  }

  lemma {:induction false} LastForIs(log: seq<HistoryEntry>, p: Path)
    ensures LastFor(log, p).None? <==> forall j :: 0 <= j < |log| ==> log[j].path != p
    ensures LastFor(log, p).Some? ==> exists n :: 0 <= n < |log| && log[n] == LastFor(log, p).value && log[n].path == p
    decreases |log|
  {
    if log == [] {
    } else {
      LastForIs(log[..|log| - 1], p);
    }
  }

  /** Last-changed reports a field's last change exactly when it stands out. */
  lemma LatestIsLastIff(log: seq<HistoryEntry>, p: Path)
    ensures LatestFor(log, p) == LastFor(log, p) <==> LastStandsOut(log, p)
  {
    hide AtMost, LatestFor, LastFor;
    LatestIsFirstGreatest(log, p);
    LastForIs(log, p);
    if LatestFor(log, p).Some? {
      var i: nat :| IsFirstGreatest(log, p, i);
      var n :| 0 <= n < |log| && log[n] == LastFor(log, p).value && log[n].path == p;
      assert AtMost(log[n].timestamp, log[i].timestamp);
      if log[i] == log[n] {
        forall j | 0 <= j < |log| && log[j].path == p && log[j] != log[n] && !Before(log[j].timestamp, log[n].timestamp)
          ensures log[j].timestamp == log[n].timestamp && i < j
        {
          AtMostAntisymmetric(log[j].timestamp, log[i].timestamp);
        }
      } else {
        forall k | 0 <= k < i && log[k] == log[n]
          ensures log[i].timestamp != log[n].timestamp
        {
          assert Before(log[k].timestamp, log[i].timestamp);
          AtMostTotal(log[k].timestamp, log[k].timestamp);
        }
      }
    }
  }

  /** Of two changes of a field, the later one is reported only if its timestamp is strictly greater:
      with equal timestamps it is the overwritten value that is reported. */
  lemma LaterKeptIffStrict(a: HistoryEntry, b: HistoryEntry)
    requires a.path == b.path && a != b
    ensures LatestFor([a, b], a.path) == Some(b) <==> Before(a.timestamp, b.timestamp)
    ensures LatestFor([a, b], a.path) == Some(a) <==> AtMost(b.timestamp, a.timestamp)
  {
    assert [a, b][..1] == [a];
    assert LatestFor([a], a.path) == Some(a);
  }

  predicate TimesGrow(log: seq<HistoryEntry>) {
    forall i, j :: 0 <= i < j < |log| && log[i].path == log[j].path ==> Before(log[i].timestamp, log[j].timestamp)
  }

  lemma {:induction false} LatestIsLast(log: seq<HistoryEntry>, p: Path)
    requires TimesGrow(log)
    ensures LatestFor(log, p) == LastFor(log, p)
    ensures LastFor(log, p).Some? ==> LastFor(log, p).value in log && LastFor(log, p).value.path == p
    decreases |log|
  {
    if log == [] {
    } else {
      var n := |log| - 1;
      LatestIsLast(log[..n], p);
      if LatestFor(log[..n], p).Some? {
        var k :| 0 <= k < n && log[..n][k] == LastFor(log[..n], p).value;
        assert log[k].path == p;
      }
    }
  }

  lemma FilterLastStep(log: seq<HistoryEntry>, s: Setting)
    requires log != []
    ensures var prefix, e := log[..|log| - 1], log[|log| - 1];
            Filter(log, OfSetting(s))
              == if e.path.setting == s then Filter(prefix, OfSetting(s)) + [e] else Filter(prefix, OfSetting(s))
  {
    var prefix, e := log[..|log| - 1], log[|log| - 1];
    FilterConcat(prefix, [e], OfSetting(s));
    assert log == prefix + [e];
    assert [e][1..] == [];
    assert Filter(prefix, OfSetting(s)) + [] == Filter(prefix, OfSetting(s));
  }

  lemma LatestAppend(log: seq<HistoryEntry>, e: HistoryEntry, p: Path)
    ensures LastFor(log + [e], p) == if e.path == p then Some(e) else LastFor(log, p)
    ensures var before := LatestFor(log, p);
            LatestFor(log + [e], p)
              == if e.path == p && (before.None? || Before(before.value.timestamp, e.timestamp)) then Some(e)
                 else before
  {
    assert (log + [e])[..|log|] == log;
  }

  /** Entries of other settings do not matter to a field. */
  lemma {:induction false} LatestOfSetting(log: seq<HistoryEntry>, p: Path)
    ensures LatestFor(log, p) == LatestFor(Filter(log, OfSetting(p.setting)), p)
    ensures LastFor(log, p) == LastFor(Filter(log, OfSetting(p.setting)), p)
    decreases |log|
  {
    hide Before, Filter, LatestFor, LastFor;
    if log == [] {
      FilterNone(log, OfSetting(p.setting));
    } else {
      var prefix, e := log[..|log| - 1], log[|log| - 1];
      assert log == prefix + [e];
      LatestOfSetting(prefix, p);
      FilterLastStep(log, p.setting);
      LatestAppend(prefix, e, p);
      LatestAppend(Filter(prefix, OfSetting(p.setting)), e, p);
    }
  }

  lemma {:induction false} ReplayIsLast(view: seq<string>, log: seq<HistoryEntry>, s: Setting, index: nat)
    requires index < |view| && forall k :: 0 <= k < |log| ==> log[k].path.setting == s
    ensures var last := LastFor(log, Field(s, index));
            Replay(view, log)[index] == if last.Some? then last.value.newValue else view[index]
    decreases |log|
  {
    if log == [] {
    } else {
      var n := |log| - 1;
      ReplayIsLast(view, log[..n], s, index);
      TelescopesConcat(view, log[..n], [log[n]]);
      assert log == log[..n] + [log[n]];
      assert [log[n]][1..] == [];
    }
  }

  predicate DifferentTimes(a: ConfigSnapshot, b: ConfigSnapshot) {
    a.timestamp != b.timestamp
  }

  predicate TimesIncrease(sorted: seq<ConfigSnapshot>) {
    forall i, j :: 0 <= i < j < |sorted| ==> Before(sorted[i].timestamp, sorted[j].timestamp)
  }

  lemma BeforeTransitive(a: string, b: string, c: string)
    requires Before(a, b) && Before(b, c)
    ensures Before(a, c)
  {
    AtMostTotal(a, b);
    if AtMost(c, a) {
      AtMostTransitive(c, a, b);
    }
  }

  lemma {:induction false} SettingLogTimes(s: Setting, sorted: seq<ConfigSnapshot>)
    requires TimesIncrease(sorted)
    ensures TimesGrow(SettingLog(s, sorted))
    ensures forall i :: 0 <= i < |SettingLog(s, sorted)| ==>
              && SettingLog(s, sorted)[i].path.setting == s
              && Before(sorted[0].timestamp, SettingLog(s, sorted)[i].timestamp)
  {
    hide SettingChanges, Stamped;
    if |sorted| >= 2 {
      var diffs := SettingChanges(s, sorted[0], sorted[1]);
      var rest := SettingLog(s, sorted[1..]);
      SettingLogTimes(s, sorted[1..]);
      SettingChangesInOrder(s, sorted[0], sorted[1]);
      StampedTimes(diffs, sorted[1]);
      forall i | 0 <= i < |rest|
        ensures Before(sorted[0].timestamp, rest[i].timestamp)
      {
        BeforeTransitive(sorted[0].timestamp, sorted[1].timestamp, rest[i].timestamp);
      }
    }
  }

  lemma SortedTimesIncrease(snapshots: seq<ConfigSnapshot>)
    requires Pairwise(snapshots, DifferentTimes)
    ensures TimesIncrease(StableSort(snapshots, NotAfter))
  {
    var sorted := StableSort(snapshots, NotAfter);
    NotAfterIsOrder();
    SortSorts(snapshots, NotAfter);
    SortPairwise(snapshots, NotAfter, DifferentTimes);
    forall i, j | 0 <= i < j < |sorted|
      ensures Before(sorted[i].timestamp, sorted[j].timestamp)
    {
      assert NotAfter(sorted[i], sorted[j]) && DifferentTimes(sorted[i], sorted[j]);
      if AtMost(sorted[j].timestamp, sorted[i].timestamp) {
        AtMostAntisymmetric(sorted[i].timestamp, sorted[j].timestamp);
      }
    }
  }

  function FieldValue(c: ConfigSnapshot, s: Setting, index: nat): Option<int> {
    match Compared(c, s)
    case None => None
    case Some(values) => if index < |values| then Some(values[index]) else None
  }

  /** A field's last change in the log holds the value of the snapshot the log sorts last, and a field
      without one has the same value in the first and the last. */
  lemma LastChangeHoldsNewest(snapshots: seq<ConfigSnapshot>, s: Setting, index: nat)
    requires snapshots != [] && index < |FieldNames(s)|
    requires forall c :: c in snapshots ==> Compared(c, s).Some?
    ensures var sorted := StableSort(snapshots, NotAfter);
            && |sorted| == |snapshots|
            && (var oldest, newest := FieldValue(sorted[0], s, index), FieldValue(sorted[|sorted| - 1], s, index);
                && oldest.Some? && newest.Some?
                && match LastFor(ChangeLog(snapshots), Field(s, index))
                   case None => oldest == newest
                   case Some(e) => e.newValue == IntText(newest.value))
  {
    hide Compared, FieldNames, FieldValue, IntText, LogOf, SettingLog, Filter, StableSort, NotAfter, LastFor;
    var sorted := StableSort(snapshots, NotAfter);
    SortElements(snapshots, NotAfter);
    SameMembers(sorted, snapshots);
    assert forall i :: 0 <= i < |sorted| ==> sorted[i] in sorted;
    FilterLog(s, sorted);
    LatestOfSetting(ChangeLog(snapshots), Field(s, index));
    FieldValueIs(sorted[0], s, index);
    FieldValueIs(sorted[|sorted| - 1], s, index);
    LastInSettingLog(s, sorted, index);
  }

  lemma FieldValueIs(c: ConfigSnapshot, s: Setting, index: nat)
    requires Compared(c, s).Some? && index < |FieldNames(s)|
    ensures index < |Compared(c, s).value| && FieldValue(c, s, index) == Some(Compared(c, s).value[index])
  {
    hide Compared, FieldNames;
  }

  lemma LastInSettingLog(s: Setting, sorted: seq<ConfigSnapshot>, index: nat)
    requires sorted != [] && forall i :: 0 <= i < |sorted| ==> Compared(sorted[i], s).Some?
    requires index < |FieldNames(s)|
    ensures var oldest, newest := Compared(sorted[0], s).value, Compared(sorted[|sorted| - 1], s).value;
            match LastFor(SettingLog(s, sorted), Field(s, index))
            case None => oldest[index] == newest[index]
            case Some(e) => e.newValue == IntText(newest[index])
  {
    hide Compared, FieldNames, IntText, SettingLog, LastFor, Telescopes;
    var oldest, newest := Compared(sorted[0], s).value, Compared(sorted[|sorted| - 1], s).value;
    SettingLogReplays(s, sorted);
    SettingLogPaths(s, sorted);
    ReplayIsLast(Texts(oldest), SettingLog(s, sorted), s, index);
    if oldest[index] != newest[index] {
      IntTextDiffers(oldest[index], newest[index]);
    }
  }

  lemma SettingLogPaths(s: Setting, sorted: seq<ConfigSnapshot>)
    ensures forall i :: 0 <= i < |SettingLog(s, sorted)| ==> SettingLog(s, sorted)[i].path.setting == s
  {
    hide LogOf, SettingLog, Filter;
    FilterLog(s, sorted);
    FilterKeeps(LogOf(sorted), OfSetting(s));
  }

  /** So for every field whose last change stands out, last-changed reports the value of the snapshot
      the log sorts last, and no entry at all only for a field that ended where it began. */
  lemma LastChangedHoldsNewest(snapshots: seq<ConfigSnapshot>, s: Setting, index: nat)
    requires snapshots != [] && index < |FieldNames(s)|
    requires forall c :: c in snapshots ==> Compared(c, s).Some?
    requires LastStandsOut(ChangeLog(snapshots), Field(s, index))
    ensures var sorted := StableSort(snapshots, NotAfter);
            && |sorted| == |snapshots|
            && (var oldest, newest := FieldValue(sorted[0], s, index), FieldValue(sorted[|sorted| - 1], s, index);
                && oldest.Some? && newest.Some?
                && match LatestFor(ChangeLog(snapshots), Field(s, index))
                   case None => oldest == newest
                   case Some(e) => e.newValue == IntText(newest.value))
  {
    hide Compared, FieldNames, FieldValue, IntText, ChangeLog, StableSort, LastStandsOut, LatestFor, LastFor;
    LastChangeHoldsNewest(snapshots, s, index);
    LatestIsLastIff(ChangeLog(snapshots), Field(s, index));
  }

  /** Distinct timestamps make every last change stand out. */
  lemma DistinctTimesStandOut(snapshots: seq<ConfigSnapshot>, p: Path)
    requires Pairwise(snapshots, DifferentTimes)
    ensures LastStandsOut(ChangeLog(snapshots), p)
  {
    hide LogOf, SettingLog, Filter, StableSort, NotAfter, AtMost, LastStandsOut, LatestFor, LastFor;
    var sorted := StableSort(snapshots, NotAfter);
    SortedTimesIncrease(snapshots);
    FilterLog(p.setting, sorted);
    SettingLogTimes(p.setting, sorted);
    LatestOfSetting(ChangeLog(snapshots), p);
    LatestIsLast(SettingLog(p.setting, sorted), p);
    LatestIsLastIff(ChangeLog(snapshots), p);
  }

  /** In time: if some snapshot has both the last timestamp text and the latest instant, what
      last-changed reports for such a field is the value of a snapshot newest in time. */
  lemma LastChangedHoldsNewestInTime(snapshots: seq<ConfigSnapshot>, s: Setting, index: nat, instantOf: string -> int)
    requires snapshots != [] && index < |FieldNames(s)|
    requires forall c :: c in snapshots ==> Compared(c, s).Some?
    requires LastStandsOut(ChangeLog(snapshots), Field(s, index))
    requires exists c :: HasLastText(snapshots, c) && IsNewest(snapshots, c, instantOf)
    ensures exists c :: IsNewest(snapshots, c, instantOf) &&
              match LatestFor(ChangeLog(snapshots), Field(s, index))
              case None => FieldValue(StableSort(snapshots, NotAfter)[0], s, index) == FieldValue(c, s, index)
              case Some(e) => FieldValue(c, s, index).Some? && e.newValue == IntText(FieldValue(c, s, index).value)
  {
    hide Compared, FieldNames, FieldValue, IntText, ChangeLog, StableSort, NotAfter, LastStandsOut, LatestFor;
    hide HasLastText, IsNewest;
    EndsAreExtremeIff(snapshots, instantOf);
    LastChangedHoldsNewest(snapshots, s, index);
    var sorted := StableSort(snapshots, NotAfter);
    assert IsNewest(snapshots, sorted[|sorted| - 1], instantOf);
  }

  /** Different offsets can make it the older value, though all timestamps are distinct. */
  lemma OffsetsReportTheOlderValue(a: ConfigSnapshot, b: ConfigSnapshot, instantOf: string -> int)
    requires var x := Timestamps.NewYearAt("01", "00", "00", SnapshotNames.Ahead("02", "00"));
             var y := Timestamps.NewYearAt("00", "30", "00", SnapshotNames.Ahead("00", "00"));
             && a.timestamp == SnapshotNames.StampText(x) && b.timestamp == SnapshotNames.StampText(y)
             && (Timestamps.IsMoment(x) && Timestamps.IsMoment(y) ==>
                   instantOf(a.timestamp) == Timestamps.Instant(x) && instantOf(b.timestamp) == Timestamps.Instant(y))
    requires a.contractHistoricalData == Some(ContractHistoricalData(1))
    requires b.contractHistoricalData == Some(ContractHistoricalData(2))
    ensures instantOf(a.timestamp) < instantOf(b.timestamp)
    ensures var kept := LatestFor(ChangeLog([a, b]), Field(HistoricalData, 0));
            kept.Some? && kept.value.newValue == IntText(1)
  {
    hide SnapshotNames.StampText, Timestamps.Instant, Timestamps.IsMoment, AtMost, ChangeLog, StableSort, IntText;
    hide LatestFor, LastStandsOut;
    OffsetsMisorderTheLog(a, b, instantOf);
    Timestamps.OffsetsBreakTheOrder(Timestamps.NewYearAt("01", "00", "00", SnapshotNames.Ahead("02", "00")),
                                    Timestamps.NewYearAt("00", "30", "00", SnapshotNames.Ahead("00", "00")));
    TwoSort(a, b);
    DistinctTimesStandOut([a, b], Field(HistoricalData, 0));
    LastChangedHoldsNewest([a, b], HistoricalData, 0);
  }

  lemma TwoSort(a: ConfigSnapshot, b: ConfigSnapshot)
    requires Before(b.timestamp, a.timestamp)
    ensures StableSort([a, b], NotAfter) == [b, a]
  {
    hide AtMost;
    assert [a, b][1..] == [b] && [b][1..] == [];
    assert StableSort([b], NotAfter) == [b];
    assert Insert(a, [b], NotAfter) == [b] + Insert(a, [], NotAfter);
  }
}
