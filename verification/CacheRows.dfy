/** Rows of the estimate cache (`src/cache.rs`): keys, migration between schema versions, filters,
    eviction order and batch sizes. */
module CacheRows {
  import SnapshotNames
  import Timestamps
  import opened Arithmetic
  import opened Text
  import opened Wrappers

  const CACHE_SCHEMA_VERSION := 3
  const INITIAL_SCHEMA_VERSION := 1
  const DURATION_SCHEMA_VERSION := 2
  const ACCESS_TRACKING_SCHEMA_VERSION := 3

  // ----- Keys -----

  /** The primary key. The network is not part of it. */
  datatype Key = Key(wasmHash: string, fn: string, argsHash: string)

  function Concat(args: seq<string>): string {
    if args == [] then "" else args[0] + Concat(args[1..])
  }

  /** The key of a call; `digest` is SHA-256, fed the arguments one after the other. */
  function KeyOf(digest: string -> string, wasmHash: string, fn: string, args: seq<string>): Key {
    Key(wasmHash, fn, digest(Concat(args)))
  }

  lemma {:induction false} ConcatIsRunningTogether(a: seq<string>, b: seq<string>)
    ensures Concat(a + b) == Concat(a) + Concat(b)
    ensures |a| == 1 ==> Concat(a) == a[0]
  {
    if a == [] {
      assert a + b == b;
    } else {
      ConcatIsRunningTogether(a[1..], b);
      assert (a + b)[1..] == a[1..] + b;
    }
  }

  /** If the digest has no collisions, two calls share a key exactly when they are of one build and
      one function and their argument lists run together into the same text: where one argument ends
      and the next begins is lost, and nothing else. */
  lemma KeysForgetBoundaries(digest: string -> string, wasmHash: string, fn: string, args: seq<string>,
                             otherHash: string, otherFn: string, otherArgs: seq<string>)
    requires forall x, y :: digest(x) == digest(y) ==> x == y
    ensures KeyOf(digest, wasmHash, fn, args) == KeyOf(digest, otherHash, otherFn, otherArgs) <==>
              wasmHash == otherHash && fn == otherFn && Concat(args) == Concat(otherArgs)
    ensures KeyOf(digest, wasmHash, fn, args).wasmHash == wasmHash && KeyOf(digest, wasmHash, fn, args).fn == fn
    ensures KeyOf(digest, wasmHash, fn, ["ab", "c"]) == KeyOf(digest, wasmHash, fn, ["a", "bc"])
  {
    hide Concat;
    ConcatIsRunningTogether(["ab"], ["c"]);
    ConcatIsRunningTogether(["c"], []);
    ConcatIsRunningTogether(["a"], ["bc"]);
    ConcatIsRunningTogether(["bc"], []);
    assert ["ab"] + ["c"] == ["ab", "c"] && ["a"] + ["bc"] == ["a", "bc"];
    assert "ab" + "c" == "a" + "bc";
  }

  // ----- Payloads -----

  datatype Payload = Payload(
    version: nat,
    network: string,
    ledger: nat,
    totalStroops: int,
    cpuInstructions: nat,
    memoryBytes: nat,
    timestamp: string,
    durationMs: nat,
    success: bool,
    networkPassphrase: Option<string>,
    coreVersion: Option<string>,
    io: Option<string>
  )

  datatype Row = Row(payload: Payload, lastAccessed: string)

  datatype Estimate = Estimate(key: Key, payload: Payload)

  datatype HistoryRow = HistoryRow(
    id: nat,
    wasmHash: string,
    fn: string,
    network: string,
    ledger: nat,
    totalStroops: int,
    cpuInstructions: nat,
    memoryBytes: nat,
    timestamp: string,
    io: Option<string>
  )

  datatype CacheError = NewerSchema(version: nat) | InvalidFilter

  // ----- Migration -----

  function MigrateOneStep(p: Payload): Payload {
    if p.version < DURATION_SCHEMA_VERSION then
      p.(durationMs := 0, success := true, version := DURATION_SCHEMA_VERSION)
    else if p.version < ACCESS_TRACKING_SCHEMA_VERSION then
      p.(version := ACCESS_TRACKING_SCHEMA_VERSION)
    else p
  }

  function MigrateSteps(p: Payload): Payload
    decreases CACHE_SCHEMA_VERSION - p.version
  {
    if p.version < CACHE_SCHEMA_VERSION then MigrateSteps(MigrateOneStep(p)) else p
  }

  predicate Readable(p: Payload) {
    p.version <= CACHE_SCHEMA_VERSION
  }

  function MigrateToLatest(p: Payload): Result<Payload, CacheError> {
    if !Readable(p) then Err(NewerSchema(p.version))
    else Ok(MigrateSteps(if p.version < INITIAL_SCHEMA_VERSION then p.(version := INITIAL_SCHEMA_VERSION) else p))
  }

  /** A readable entry as the current schema shows it. */
  function Migrated(p: Payload): Payload
    requires Readable(p)
  {
    MigrateToLatest(p).value
  }

  /** Migration reaches the current version for every entry but a newer one, touches only what the
      first schema lacked, and leaves current entries alone. */
  lemma MigrationIsSettled(p: Payload)
    ensures Readable(p) <==> p.version <= 3
    ensures Readable(p) <==> MigrateToLatest(p).Ok?
    ensures !Readable(p) ==> MigrateToLatest(p) == Err(NewerSchema(p.version))
    ensures Readable(p) ==>
              && Migrated(p)
                   == p.(version := 3, durationMs := Migrated(p).durationMs,
                         success := Migrated(p).success)
              && (p.version >= 2 ==> Migrated(p) == p.(version := 3))
              && (p.version < 2 ==> Migrated(p).durationMs == 0 && Migrated(p).success)
              && MigrateToLatest(Migrated(p)) == Ok(Migrated(p))
  {
    if Readable(p) {
      var first := if p.version < INITIAL_SCHEMA_VERSION then p.(version := INITIAL_SCHEMA_VERSION) else p;
      var second := MigrateOneStep(first);
      var third := MigrateOneStep(second);
      assert MigrateSteps(third) == third;
      assert MigrateSteps(second) == third;
      assert MigrateSteps(first) == third;
    }
  }

  // ----- Filters -----

  datatype CacheFilter = CacheFilter(
    fn: Option<string>,
    wasmHash: Option<string>,
    network: Option<string>,
    minFee: Option<int>,
    maxFee: Option<int>,
    since: Option<int>,
    to: Option<int>
  )

  predicate IsSpace(c: char) {
    c == ' ' || '\t' <= c <= '\r'
  }

  function TrimStart(s: string): string {
    if s != "" && IsSpace(s[0]) then TrimStart(s[1..]) else s
  }

  function TrimEnd(s: string): string {
    if s != "" && IsSpace(s[|s| - 1]) then TrimEnd(s[..|s| - 1]) else s
  }

  function Trim(s: string): string {
    TrimEnd(TrimStart(s))
  }

  function LowerChar(c: char): char {
    if 'A' <= c <= 'Z' then (c as int + 32) as char else c
  }

  function Lower(s: string): string {
    seq(|s|, i requires 0 <= i < |s| => LowerChar(s[i]))
  }

  predicate IsHexDigit(c: char) {
    IsDigit(c) || 'a' <= c <= 'f' || 'A' <= c <= 'F'
  }

  /** `CacheFilter::validate`; `known` says which networks have an endpoint. */
  predicate IsValidFilter(f: CacheFilter, known: string -> bool) {
    && (f.network.Some? ==> known(f.network.value))
    && (f.fn.Some? ==> f.fn.value != "")
    && (f.wasmHash.Some? ==>
          var hash := Trim(f.wasmHash.value);
          0 < |hash| <= 64 && forall i :: 0 <= i < |hash| ==> IsHexDigit(hash[i]))
    && (f.minFee.Some? ==> f.minFee.value >= 0)
    && (f.maxFee.Some? ==> f.maxFee.value >= 0)
    && (f.minFee.Some? && f.maxFee.Some? ==> f.minFee.value <= f.maxFee.value)
    && (f.since.Some? && f.to.Some? ==> f.since.value <= f.to.value)
  }

  /** `CacheFilter::matches`; `instantOf` reads a stored timestamp. */
  predicate Matches(f: CacheFilter, instantOf: string -> Option<int>, e: Estimate) {
    && (f.fn.Some? ==> e.key.fn == f.fn.value)
    && (f.wasmHash.Some? ==> Lower(Trim(f.wasmHash.value)) <= Lower(e.key.wasmHash))
    && (f.network.Some? ==> e.payload.network == f.network.value)
    && (f.minFee.Some? ==> e.payload.totalStroops >= f.minFee.value)
    && (f.maxFee.Some? ==> e.payload.totalStroops <= f.maxFee.value)
    && (f.since.Some? ==>
          var at := instantOf(e.payload.timestamp);
          at.Some? && at.value >= f.since.value)
    && (f.to.Some? ==>
          var at := instantOf(e.payload.timestamp);
          at.Some? && at.value <= f.to.value)
  }

  /** The rows a filter selects: readable ones that match once migrated. */
  predicate Selects(f: CacheFilter, instantOf: string -> Option<int>, k: Key, p: Payload) {
    Readable(p) && Matches(f, instantOf, Estimate(k, Migrated(p)))
  }

  // ----- What a filter selects -----

  const NO_FILTER := CacheFilter(None, None, None, None, None, None, None)

  predicate IsNamed(wanted: Option<string>, name: string) {
    wanted == None || wanted == Some(name)
  }

  /** A closed range, either end of which may be missing; without a value only no range holds it. */
  predicate IsWithin(low: Option<int>, x: Option<int>, high: Option<int>) {
    && ((low.None? && high.None?) || x.Some?)
    && (low.Some? && x.Some? ==> low.value <= x.value)
    && (high.Some? && x.Some? ==> x.value <= high.value)
  }

  predicate SameLetter(a: char, b: char) {
    || a == b
    || ('a' <= a <= 'z' && b as int == a as int - 'a' as int + 'A' as int)
    || ('a' <= b <= 'z' && a as int == b as int - 'a' as int + 'A' as int)
  }

  predicate StartsIgnoringCase(s: string, prefix: string) {
    |prefix| <= |s| && forall i :: 0 <= i < |prefix| ==> SameLetter(prefix[i], s[i])
  }

  /** What is left of `s` without the white space around it. */
  ghost predicate IsTrimmed(s: string, t: string) {
    exists lead, trail :: s == lead + t + trail && AllSpace(lead) && AllSpace(trail)
                          && (t != "" ==> !IsSpace(t[0]) && !IsSpace(t[|t| - 1]))
  }

  predicate AllSpace(s: string) {
    forall i :: 0 <= i < |s| ==> s[i] as int == 32 || 9 <= s[i] as int <= 13
  }

  lemma {:induction false} TrimStartIs(s: string) returns (lead: string)
    ensures s == lead + TrimStart(s) && AllSpace(lead)
    ensures TrimStart(s) != "" ==> !IsSpace(TrimStart(s)[0])
  {
    if s == "" || !IsSpace(s[0]) {
      lead := "";
    } else {
      var more := TrimStartIs(s[1..]);
      lead := [s[0]] + more;
      assert s == [s[0]] + s[1..];
    }
  }

  lemma TrimEndUnfolds(s: string)
    ensures TrimEnd(s) == if s != "" && IsSpace(s[|s| - 1]) then TrimEnd(s[..|s| - 1]) else s
  {
  }

  lemma AllSpaceAppend(s: string, c: char)
    ensures AllSpace(s + [c]) <==> AllSpace(s) && IsSpace(c)
  {
    assert (s + [c])[|s|] == c;
    assert forall i :: 0 <= i < |s| ==> (s + [c])[i] == s[i];
  }

  lemma {:induction false} TrimEndIs(s: string) returns (trail: string)
    ensures s == TrimEnd(s) + trail && AllSpace(trail)
    ensures TrimEnd(s) != "" ==> !IsSpace(TrimEnd(s)[|TrimEnd(s)| - 1])
  {
    TrimEndUnfolds(s);
    hide TrimEnd;
    if s == "" || !IsSpace(s[|s| - 1]) {
      trail := "";
    } else {
      var init, last := s[..|s| - 1], s[|s| - 1];
      var more := TrimEndIs(init);
      trail := more + [last];
      AllSpaceAppend(more, last);
      assert s == init + [last];
    }
  }

  lemma TrimIs(s: string)
    ensures IsTrimmed(s, Trim(s))
  {
    var lead := TrimStartIs(s);
    var trail := TrimEndIs(TrimStart(s));
    assert s == lead + Trim(s) + trail;
    assert Trim(s) != "" ==> Trim(s)[0] == TrimStart(s)[0];
  }

  lemma LowerIgnoresCase(a: string, b: string)
    ensures Lower(a) <= Lower(b) <==> StartsIgnoringCase(b, a)
  {
    if |a| <= |b| {
      assert forall i :: 0 <= i < |a| ==> (Lower(a)[i] == Lower(b)[i] <==> SameLetter(a[i], b[i]));
    }
  }

  /** Name and network equal, hash begun by the given text whatever its case and the space around it,
      fee and time within their closed ranges, a time that cannot be read in none. */
  ghost predicate IsWanted(f: CacheFilter, instantOf: string -> Option<int>, k: Key, p: Payload) {
    && IsNamed(f.fn, k.fn)
    && IsNamed(f.network, p.network)
    && (f.wasmHash.Some? ==>
          exists prefix :: IsTrimmed(f.wasmHash.value, prefix) && StartsIgnoringCase(k.wasmHash, prefix))
    && IsWithin(f.minFee, Some(p.totalStroops), f.maxFee)
    && IsWithin(f.since, instantOf(p.timestamp), f.to)
  }

  lemma TrimmedIsOne(s: string, t: string)
    requires IsTrimmed(s, t)
    ensures t == Trim(s)
  {
    var lead, trail :| s == lead + t + trail && AllSpace(lead) && AllSpace(trail)
                       && (t != "" ==> !IsSpace(t[0]) && !IsSpace(t[|t| - 1]));
    hide TrimStart, TrimEnd, IsTrimmed, AllSpace;
    assert s == lead + (t + trail);
    TrimStartOf(lead, t + trail);
    if t == "" {
      assert t + trail == trail + "";
      TrimStartOf(trail, "");
      NothingToTrim("");
    } else {
      assert (t + trail)[0] == t[0];
      NothingToTrim(t + trail);
      TrimEndOf(t, trail);
    }
  }

  lemma NothingToTrim(s: string)
    ensures s == "" || !IsSpace(s[0]) ==> TrimStart(s) == s
    ensures TrimEnd("") == ""
  {
  }

  lemma {:induction false} TrimStartOf(lead: string, rest: string)
    requires AllSpace(lead)
    ensures TrimStart(lead + rest) == TrimStart(rest)
  {
    if lead == "" {
      assert lead + rest == rest;
    } else {
      TrimStartOf(lead[1..], rest);
      assert (lead + rest)[1..] == lead[1..] + rest;
    }
  }

  lemma {:induction false} TrimEndOf(t: string, trail: string)
    requires AllSpace(trail) && t != "" && !IsSpace(t[|t| - 1])
    ensures TrimEnd(t + trail) == t
  {
    if trail == "" {
      assert t + trail == t;
    } else {
      TrimEndOf(t, trail[..|trail| - 1]);
      assert (t + trail)[..|t + trail| - 1] == t + trail[..|trail| - 1];
    }
  }

  /** A filter selects exactly the readable rows it wants, as they are stored. */
  lemma SelectsIff(f: CacheFilter, instantOf: string -> Option<int>, k: Key, p: Payload)
    ensures Selects(f, instantOf, k, p) <==> Readable(p) && IsWanted(f, instantOf, k, p)
  {
    hide Trim, Lower, IsTrimmed, StartsIgnoringCase, MigrateToLatest, Readable;
    if Readable(p) {
      MigrationIsSettled(p);
      if f.wasmHash.Some? {
        var hash := f.wasmHash.value;
        TrimIs(hash);
        LowerIgnoresCase(Trim(hash), k.wasmHash);
        forall prefix | IsTrimmed(hash, prefix)
          ensures prefix == Trim(hash)
        {
          TrimmedIsOne(hash, prefix);
        }
      }
    }
  }

  /** A filter selects what each of its options selects alone, and one without options selects every
      readable row. */
  lemma FilterIsIntersection(f: CacheFilter, instantOf: string -> Option<int>, k: Key, p: Payload)
    ensures Selects(NO_FILTER, instantOf, k, p) <==> Readable(p)
    ensures Selects(f, instantOf, k, p) <==>
              && Selects(NO_FILTER.(fn := f.fn), instantOf, k, p)
              && Selects(NO_FILTER.(wasmHash := f.wasmHash), instantOf, k, p)
              && Selects(NO_FILTER.(network := f.network), instantOf, k, p)
              && Selects(NO_FILTER.(minFee := f.minFee), instantOf, k, p)
              && Selects(NO_FILTER.(maxFee := f.maxFee), instantOf, k, p)
              && Selects(NO_FILTER.(since := f.since), instantOf, k, p)
              && Selects(NO_FILTER.(to := f.to), instantOf, k, p)
  {
    hide Trim, Lower, MigrateToLatest, Readable;
  }

  /** The codes of the decimal digits and of the first six letters in either case. */
  predicate IsHexText(s: string) {
    forall i :: 0 <= i < |s| ==>
      var code := s[i] as int;
      48 <= code <= 57 || 65 <= code <= 70 || 97 <= code <= 102
  }

  /** A filter is valid exactly when each of its options is valid alone and neither of its ranges is
      upside down. */
  lemma ValidFilterIff(f: CacheFilter, known: string -> bool)
    ensures IsValidFilter(NO_FILTER, known)
    ensures IsValidFilter(f, known) <==>
              && (forall name :: f.fn == Some(name) ==> |name| > 0)
              && (forall net :: f.network == Some(net) ==> known(net))
              && (forall hash :: f.wasmHash == Some(hash) ==> 1 <= |Trim(hash)| <= 64 && IsHexText(Trim(hash)))
              && (forall fee :: Some(fee) == f.minFee || Some(fee) == f.maxFee ==> !(fee < 0))
              && (forall low, high :: f.minFee == Some(low) && f.maxFee == Some(high) ==> !(low > high))
              && (forall low, high :: f.since == Some(low) && f.to == Some(high) ==> !(low > high))
  {
    hide Trim;
  }

  // ----- Eviction order -----

  /** `ORDER BY last_accessed ASC, timestamp ASC`. */
  predicate NotAfter(a: Row, b: Row) {
    && AtMost(a.lastAccessed, b.lastAccessed)
    && (a.lastAccessed == b.lastAccessed ==> AtMost(a.payload.timestamp, b.payload.timestamp))
  }

  lemma NotAfterTotal(a: Row, b: Row)
    ensures NotAfter(a, b) || NotAfter(b, a)
  {
    AtMostTotal(a.lastAccessed, b.lastAccessed);
    AtMostTotal(a.payload.timestamp, b.payload.timestamp);
  }

  lemma NotAfterTransitive(a: Row, b: Row, c: Row)
    requires NotAfter(a, b) && NotAfter(b, c)
    ensures NotAfter(a, c)
  {
    AtMostTransitive(a.lastAccessed, b.lastAccessed, c.lastAccessed);
    if a.lastAccessed == c.lastAccessed {
      AtMostAntisymmetric(a.lastAccessed, b.lastAccessed);
      AtMostTransitive(a.payload.timestamp, b.payload.timestamp, c.payload.timestamp);
    }
  }

  /** The text order is recency: of two times written with one numeric offset, as the cache writes
      them, the earlier goes first. */
  lemma LeastRecentIsOldest(a: Row, b: Row, x: SnapshotNames.Stamp, y: SnapshotNames.Stamp)
    requires Timestamps.IsMoment(x) && Timestamps.IsMoment(y) && x.offset == y.offset && !x.offset.Zulu?
    requires a.lastAccessed == SnapshotNames.StampText(x) && b.lastAccessed == SnapshotNames.StampText(y)
    ensures Timestamps.Instant(x) < Timestamps.Instant(y) ==> NotAfter(a, b) && !NotAfter(b, a)
    ensures NotAfter(a, b) ==> Timestamps.Instant(x) <= Timestamps.Instant(y)
  {
    hide SnapshotNames.StampText, Timestamps.Instant, Timestamps.IsMoment, AtMost;
    Timestamps.NumericOffsetsSortByTime(x, y);
    AtMostTotal(a.lastAccessed, b.lastAccessed);
    AtMostTotal(b.lastAccessed, b.lastAccessed);
  }

  /** Of two rows used at the same time, the one written earlier goes first. */
  lemma EarlierWrittenGoesFirst(a: Row, b: Row)
    requires a.lastAccessed == b.lastAccessed
    ensures NotAfter(a, b) <==> AtMost(a.payload.timestamp, b.payload.timestamp)
  {
    AtMostTotal(a.lastAccessed, a.lastAccessed);
  }

  /** A choice `DELETE ... ORDER BY ... LIMIT n` may make; ties fall either way. */
  predicate IsOldest(rows: map<Key, Row>, victims: set<Key>, n: nat) {
    && victims <= rows.Keys
    && |victims| == Min(n, |rows|)
    && forall v, s :: v in victims && s in rows.Keys - victims ==> NotAfter(rows[v], rows[s])
  }

  lemma {:induction false} OldestRow(rows: map<Key, Row>, keys: set<Key>) returns (k: Key)
    requires keys != {} && keys <= rows.Keys
    ensures k in keys && forall s :: s in keys ==> NotAfter(rows[k], rows[s])
    decreases |keys|
  {
    k :| k in keys;
    var rest := keys - {k};
    if rest == {} {
      NotAfterTotal(rows[k], rows[k]);
      assert keys == {k};
    } else {
      var m := OldestRow(rows, rest);
      NotAfterTotal(rows[k], rows[m]);
      NotAfterTotal(rows[k], rows[k]);
      if NotAfter(rows[k], rows[m]) {
        forall s | s in rest
          ensures NotAfter(rows[k], rows[s])
        {
          NotAfterTransitive(rows[k], rows[m], rows[s]);
        }
      } else {
        k := m;
      }
    }
  }

  lemma {:induction false} OldestExist(rows: map<Key, Row>, n: nat) returns (victims: set<Key>)
    ensures IsOldest(rows, victims, n)
  {
    if n == 0 || rows == map[] {
      victims := {};
    } else {
      victims := OldestExist(rows, n - 1);
      var rest := rows.Keys - victims;
      if rest != {} {
        var k := OldestRow(rows, rest);
        assert |victims + {k}| == |victims| + 1;
        CardinalityOf(rows.Keys, victims + {k});
        if |victims| == |rows| {
          SubsetOfSameSize(victims, rows.Keys);
        }
        victims := victims + {k};
      } else {
        assert victims == rows.Keys;
      }
    }
  }

  lemma CardinalityOf<T>(a: set<T>, b: set<T>)
    requires b <= a
    ensures |a - b| == |a| - |b|
  {
    assert a == b + (a - b);
  }

  lemma SubsetOfSameSize<T>(a: set<T>, b: set<T>)
    requires a <= b && |a| == |b|
    ensures a == b
  {
    CardinalityOf(b, a);
  }

  /** What an eviction may do to a table: drop rows no more recent than any it keeps, change no
      row, and never empty it. */
  ghost predicate Evicts(before: map<Key, Row>, after: map<Key, Row>) {
    && after.Keys <= before.Keys
    && (forall k :: k in after ==> after[k] == before[k])
    && (forall v, s :: v in before.Keys - after.Keys && s in after ==> NotAfter(before[v], before[s]))
    && (before != map[] ==> after != map[])
  }

  lemma EvictsNothing(rows: map<Key, Row>)
    ensures Evicts(rows, rows)
  {
  }

  lemma EvictsCompose(a: map<Key, Row>, b: map<Key, Row>, c: map<Key, Row>)
    requires Evicts(a, b) && Evicts(b, c)
    ensures Evicts(a, c)
  {
  }

  /** A row strictly newer than all others is never the one to go. */
  lemma NewestSurvives(before: map<Key, Row>, after: map<Key, Row>, k: Key)
    requires Evicts(before, after) && k in before
    requires forall s :: s in before && s != k ==> !NotAfter(before[k], before[s])
    ensures k in after && after[k] == before[k]
  {
    var s :| s in after;
    assert k !in after ==> k in before.Keys - after.Keys && s != k;
  }

  // ----- Quotas -----

  datatype CacheLimits = CacheLimits(maxBytes: nat, maxEntries: nat)
  {
    predicate IsUnbounded() {
      maxBytes == 0 && maxEntries == 0
    }

    predicate Met(entries: nat, bytes: nat) {
      && (maxEntries > 0 ==> entries <= maxEntries)
      && (maxBytes > 0 ==> bytes <= maxBytes)
    }
  }

  function TargetEntries(limits: CacheLimits): nat {
    limits.maxEntries * 9 / 10
  }

  function EvictionBatch(entries: nat, bytes: nat, limits: CacheLimits): nat {
    var target := TargetEntries(limits);
    if limits.maxEntries > 0 && target > 0 && entries > target then entries - target
    else if limits.maxBytes > 0 && bytes > limits.maxBytes then
      var excess := bytes - limits.maxBytes;
      var perEntry := Max(bytes / Max(entries, 1), 1);
      var fromBytes := Max(excess / perEntry, 1);
      Max(Min(fromBytes, Max(entries - 1, 0)), 1)
    else 1
  }

  function HistoryEvictionBatch(historyRows: nat, bytes: nat, limits: CacheLimits): nat {
    if limits.maxBytes == 0 || bytes <= limits.maxBytes then 0
    else
      var excess := bytes - limits.maxBytes;
      var perRow := Max(bytes / Max(historyRows, 1), 1);
      Min(Max(excess / perRow, 1), historyRows)
  }

  /** A round makes progress, never takes the last estimate, and aims straight for the target. */
  lemma BatchBounds(entries: nat, bytes: nat, limits: CacheLimits)
    ensures entries > 1 ==> 1 <= EvictionBatch(entries, bytes, limits) < entries
    ensures limits.maxEntries > 0 && 0 < TargetEntries(limits) < entries ==>
              EvictionBatch(entries, bytes, limits) == entries - TargetEntries(limits)
    ensures (limits.maxBytes > 0 ==> bytes <= limits.maxBytes) && TargetEntries(limits) == 0 ==>
              EvictionBatch(entries, bytes, limits) == 1
  {
  }

  /** `n` rows make up for the bytes over the quota, at the average size of a row: as many as fit into
      the excess, but at least one and at most `most`. */
  predicate Covers(n: nat, rows: nat, bytes: nat, quota: nat, most: nat)
    requires rows > 0
  {
    var excess, per := bytes - quota, Max(bytes / rows, 1);
    && 1 <= n <= most
    && n * per <= Max(excess, per)
    && (n == most || excess < (n + 1) * per)
  }

  lemma NoLargerCovers(n: nat, m: nat, per: nat, excess: int, most: nat)
    requires per > 0 && 1 <= n && m <= most
    requires n == most || excess < (n + 1) * per
    requires m * per <= Max(excess, per)
    ensures m <= n
  {
    if n < m {
      ProductOrder(per, n + 1, m);
      ProductOrder(per, 2, n + 1);
    }
  }

  /** There is only one such number. */
  lemma CoversOnce(n: nat, m: nat, rows: nat, bytes: nat, quota: nat, most: nat)
    requires rows > 0 && Covers(n, rows, bytes, quota, most) && Covers(m, rows, bytes, quota, most)
    ensures n == m
  {
    var excess, per := bytes - quota, Max(bytes / rows, 1);
    NoLargerCovers(n, m, per, excess, most);
    NoLargerCovers(m, n, per, excess, most);
  }

  lemma QuotientBounds(a: nat, b: nat)
    requires b > 0
    ensures a / b * b <= a < (a / b + 1) * b
  {
    Distribute(b, a / b, 1);
  }

  lemma QuotientCovers(excess: nat, per: nat, most: nat)
    requires per > 0 && most > 0
    ensures var n := Min(Max(excess / per, 1), most);
            n * per <= Max(excess, per) && (n == most || excess < (n + 1) * per)
  {
    var q := excess / per;
    QuotientBounds(excess, per);
    if q > most {
      ProductOrder(per, most, q);
    }
  }

  /** A byte-driven batch makes up for the excess, short of the last estimate; and so does the batch of
      log rows, which may take the last. */
  lemma BatchesCover(rows: nat, bytes: nat, limits: CacheLimits)
    requires 0 < limits.maxBytes < bytes
    ensures rows > 1 && !(0 < TargetEntries(limits) < rows) ==>
              Covers(EvictionBatch(rows, bytes, limits), rows, bytes, limits.maxBytes, rows - 1)
    ensures rows > 0 ==> Covers(HistoryEvictionBatch(rows, bytes, limits), rows, bytes, limits.maxBytes, rows)
  {
    hide TargetEntries;
    if rows > 0 {
      var excess, per := bytes - limits.maxBytes, Max(bytes / rows, 1);
      QuotientCovers(excess, per, rows);
      if rows > 1 {
        QuotientCovers(excess, per, rows - 1);
      }
    }
  }

  lemma HistoryBatchBounds(historyRows: nat, bytes: nat, limits: CacheLimits)
    requires 0 < limits.maxBytes < bytes && historyRows > 0
    ensures 1 <= HistoryEvictionBatch(historyRows, bytes, limits) <= historyRows
  {
  }
}
