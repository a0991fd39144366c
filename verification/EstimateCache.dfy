/** The estimate cache (`src/cache.rs`): one keyed table, one append-only log, and the operations
    that change them step by step. Here an operation is one step. Saving and filtered deletion are
    one transaction; the two statements of a clearing, and a load's lookup and its touch, are taken
    to run without another operation between them. */
module EstimateCache {
  import SnapshotNames
  import Timestamps
  import opened Arithmetic
  import opened CacheRows
  import opened Sorting
  import opened Text
  import opened Wrappers

  const MAX_EVICTION_ROUNDS: nat := 100_000

  /** The shipped quotas: 50 MB and ten thousand estimates. */
  const DEFAULT_LIMITS := CacheLimits(50 * 1024 * 1024, 10_000)

  // ----- What a plain map would hold -----

  /** What has been done to the table, in order. */
  datatype Op =
    | Save(key: Key, payload: Payload)
    | Touch(touched: Key)
    | Evict(victims: set<Key>)
    | ClearNetwork(network: string)
    | RemoveWasm(wasmHash: string)
    | DeleteMatching(filter: CacheFilter)

  /** Whether `op` takes an entry out. */
  predicate Removes(instantOf: string -> Option<int>, op: Op, k: Key, p: Payload) {
    match op
    case Save(_, _) => false
    case Touch(_) => false
    case Evict(victims) => k in victims
    case ClearNetwork(network) => p.network == network
    case RemoveWasm(wasmHash) => k.wasmHash == wasmHash
    case DeleteMatching(filter) => Selects(filter, instantOf, k, p)
  }

  /** What `op` makes of an entry. */
  function HeldNext(instantOf: string -> Option<int>, op: Op, k: Key, before: Option<Payload>): Option<Payload> {
    if op.Save? && op.key == k then Some(op.payload)
    else if before.Some? && Removes(instantOf, op, k, before.value) then None
    else before
  }

  /** The entry a plain map holds under `k` after `trace`. */
  ghost function Held(instantOf: string -> Option<int>, initial: map<Key, Payload>, trace: seq<Op>,
                      k: Key): Option<Payload>
    decreases |trace|
  {
    if trace == [] then if k in initial then Some(initial[k]) else None
    else
      HeldNext(instantOf, trace[|trace| - 1], k, Held(instantOf, initial, trace[..|trace| - 1], k))
  }

  /** From `i` on, nothing overwrites or removes payload `p` under `k`. */
  ghost predicate Untouched(instantOf: string -> Option<int>, trace: seq<Op>, i: nat, k: Key, p: Payload) {
    forall j :: i <= j < |trace| ==>
      !(trace[j].Save? && trace[j].key == k) && !Removes(instantOf, trace[j], k, p)
  }

  /** An entry is held exactly when it is the payload of the latest save under its key, or was
      there at the start, and nothing has removed it since. */
  lemma {:induction false} HeldIsLatestSave(instantOf: string -> Option<int>, initial: map<Key, Payload>,
                                            trace: seq<Op>, k: Key, p: Payload)
    ensures Held(instantOf, initial, trace, k) == Some(p) <==>
              || (exists i :: 0 <= i < |trace| && trace[i] == Save(k, p) && Untouched(instantOf, trace, i + 1, k, p))
              || (k in initial && initial[k] == p && Untouched(instantOf, trace, 0, k, p))
    decreases |trace|
  {
    if trace == [] {
    } else {
      var n := |trace| - 1;
      var prefix := trace[..n];
      HeldIsLatestSave(instantOf, initial, prefix, k, p);
      forall i | 0 <= i <= n
        ensures Untouched(instantOf, trace, i, k, p) <==>
                  && Untouched(instantOf, prefix, i, k, p)
                  && !(trace[n].Save? && trace[n].key == k)
                  && !Removes(instantOf, trace[n], k, p)
      {
      }
      if trace[n] == Save(k, p) {
        assert Untouched(instantOf, trace, n + 1, k, p);
      } else {
        forall i | 0 <= i < n && trace[i] == Save(k, p)
          ensures prefix[i] == Save(k, p)
        {
        }
        if exists i :: 0 <= i < n && prefix[i] == Save(k, p) && Untouched(instantOf, prefix, i + 1, k, p) {
          var i :| 0 <= i < n && prefix[i] == Save(k, p) && Untouched(instantOf, prefix, i + 1, k, p);
          assert trace[i] == Save(k, p);
        }
      }
    }
  }

  /** A key does not name a network: a save for a second network under the same key replaces the
      first network's entry, and clearing the first network then leaves the second's. */
  lemma NetworksShareAKey(instantOf: string -> Option<int>, initial: map<Key, Payload>, trace: seq<Op>, k: Key,
                          p: Payload, q: Payload)
    requires Held(instantOf, initial, trace, k) == Some(p) && p.network != q.network
    ensures Held(instantOf, initial, trace + [Save(k, q)], k) == Some(q)
    ensures Held(instantOf, initial, trace + [Save(k, q)] + [ClearNetwork(p.network)], k) == Some(q)
    ensures Held(instantOf, initial, trace + [Save(k, q)] + [ClearNetwork(q.network)], k) == None
  {
    var saved := trace + [Save(k, q)];
    assert saved[..|trace|] == trace;
    assert (saved + [ClearNetwork(p.network)])[..|saved|] == saved;
    assert (saved + [ClearNetwork(q.network)])[..|saved|] == saved;
  }

  /** A rebuild's removal takes out what was saved for that build, whatever the function and the
      arguments, and nothing saved for another. */
  lemma RebuildRemoves(instantOf: string -> Option<int>, initial: map<Key, Payload>, trace: seq<Op>,
                       digest: string -> string, wasmHash: string, fn: string, args: seq<string>, p: Payload,
                       rebuilt: string)
    ensures var k := KeyOf(digest, wasmHash, fn, args);
            Held(instantOf, initial, trace + [Save(k, p)] + [RemoveWasm(rebuilt)], k)
            == if rebuilt == wasmHash then None else Some(p)
  {
    var k := KeyOf(digest, wasmHash, fn, args);
    var saved := trace + [Save(k, p)];
    assert saved[..|trace|] == trace;
    assert (saved + [RemoveWasm(rebuilt)])[..|saved|] == saved;
  }

  lemma RemoveOne(rows: map<Key, Row>, gone: set<Key>, k: Key)
    requires gone <= rows.Keys && k in rows && k !in gone
    ensures rows - gone - {k} == rows - (gone + {k})
    ensures |rows - gone - {k}| == |rows - gone| - 1
  {
    assert (rows - gone - {k}).Keys == (rows - gone).Keys - {k};
  }

  lemma OldestGo(rows: map<Key, Row>, victims: set<Key>, batch: nat)
    requires IsOldest(rows, victims, batch)
    ensures |victims| == Min(batch, |rows|)
    ensures |rows - victims| == |rows| - |victims|
    ensures batch < |rows| ==> Evicts(rows, rows - victims)
  {
    hide NotAfter;
    var after := rows - victims;
    assert after.Keys == rows.Keys - victims;
    CardinalityOf(rows.Keys, victims);
    assert rows.Keys - after.Keys == victims;
    forall v, s | v in rows.Keys - after.Keys && s in after
      ensures NotAfter(rows[v], rows[s])
    {
      assert v in victims && s in rows.Keys - victims;
    }
    if batch < |rows| {
      assert |after| > 0;
    }
  }

  // ----- How much a pass evicts -----

  /** What one round makes of the numbers of estimates and log rows, or `None` to stop. */
  function Round(limits: CacheLimits, bytes: nat, entries: nat, historyRows: nat): Option<(nat, nat)> {
    var overEntries := limits.maxEntries > 0 && entries > limits.maxEntries;
    var overBytes := limits.maxBytes > 0 && bytes > limits.maxBytes;
    var fewer := if entries > 1 then Max(entries - EvictionBatch(entries, bytes, limits), 0) else entries;
    var shorter :=
      if overBytes && historyRows > 0 then Max(historyRows - HistoryEvictionBatch(historyRows, bytes, limits), 0)
      else historyRows;
    if (!overEntries && !overBytes) || (fewer == entries && shorter == historyRows) then None
    else Some((fewer, shorter))
  }

  /** The numbers a pass ends with; `liveBytes(i)` is the size measured in round `i`. */
  function PassCounts(limits: CacheLimits, liveBytes: nat -> nat, round: nat, entries: nat,
                      historyRows: nat): (nat, nat)
    decreases MAX_EVICTION_ROUNDS - round
  {
    if limits.IsUnbounded() || round >= MAX_EVICTION_ROUNDS then (entries, historyRows)
    else
      match Round(limits, liveBytes(round), entries, historyRows)
      case None => (entries, historyRows)
      case Some((fewer, shorter)) => PassCounts(limits, liveBytes, round + 1, fewer, shorter)
  }

  lemma PassStops(limits: CacheLimits, liveBytes: nat -> nat, round: nat, entries: nat, historyRows: nat)
    requires limits.IsUnbounded() || round >= MAX_EVICTION_ROUNDS
               || Round(limits, liveBytes(round), entries, historyRows) == None
    ensures PassCounts(limits, liveBytes, round, entries, historyRows) == (entries, historyRows)
  {
  }

  lemma MetStops(limits: CacheLimits, bytes: nat, entries: nat, historyRows: nat)
    ensures limits.Met(entries, bytes) ==> Round(limits, bytes, entries, historyRows) == None
  {
  }

  lemma PassGoesOn(limits: CacheLimits, liveBytes: nat -> nat, round: nat, entries: nat, historyRows: nat, fewer: nat,
                   shorter: nat)
    requires !limits.IsUnbounded() && round < MAX_EVICTION_ROUNDS
    requires Round(limits, liveBytes(round), entries, historyRows) == Some((fewer, shorter))
    ensures PassCounts(limits, liveBytes, round, entries, historyRows)
              == PassCounts(limits, liveBytes, round + 1, fewer, shorter)
  {
  }

  /** A round that does not stop takes at least one row and leaves an estimate; one that does found
      the quotas met or nothing left to give. */
  lemma RoundProgress(limits: CacheLimits, bytes: nat, entries: nat, historyRows: nat)
    ensures match Round(limits, bytes, entries, historyRows)
            case Some((fewer, shorter)) =>
              fewer + shorter < entries + historyRows && fewer <= entries && shorter <= historyRows
                && (entries > 0 ==> fewer > 0)
            case None => limits.Met(entries, bytes) || (entries <= 1 && historyRows == 0)
  {
    hide EvictionBatch, HistoryEvictionBatch;
    BatchBounds(entries, bytes, limits);
    if 0 < limits.maxBytes < bytes && historyRows > 0 {
      HistoryBatchBounds(historyRows, bytes, limits);
    }
  }

  /** How many estimates a round leaves: nine tenths of the entry quota if there are more, else without
      those that make up for the bytes over the quota, else all but one; but always the last one. */
  predicate TrimsEstimates(limits: CacheLimits, bytes: nat, entries: nat, fewer: nat) {
    if entries <= 1 then fewer == entries
    else if limits.maxEntries > 1 && 10 * entries > 9 * limits.maxEntries then
      10 * fewer <= 9 * limits.maxEntries < 10 * (fewer + 1)
    else if limits.maxBytes > 0 && bytes > limits.maxBytes then
      fewer < entries && Covers(entries - fewer, entries, bytes, limits.maxBytes, entries - 1)
    else fewer == entries - 1
  }

  /** How many log rows: without those that make up for the bytes over the quota. */
  predicate TrimsLog(limits: CacheLimits, bytes: nat, historyRows: nat, shorter: nat) {
    if limits.maxBytes > 0 && bytes > limits.maxBytes && historyRows > 0 then
      shorter < historyRows && Covers(historyRows - shorter, historyRows, bytes, limits.maxBytes, historyRows)
    else shorter == historyRows
  }

  lemma RoundTrimsBy(limits: CacheLimits, bytes: nat, entries: nat, historyRows: nat)
    ensures match Round(limits, bytes, entries, historyRows)
            case None => true
            case Some((fewer, shorter)) =>
              TrimsEstimates(limits, bytes, entries, fewer) && TrimsLog(limits, bytes, historyRows, shorter)
  {
    hide EvictionBatch, HistoryEvictionBatch, Covers;
    BatchBounds(entries, bytes, limits);
    if 0 < limits.maxBytes < bytes {
      BatchesCover(entries, bytes, limits);
      BatchesCover(historyRows, bytes, limits);
      if historyRows > 0 {
        HistoryBatchBounds(historyRows, bytes, limits);
      }
    }
  }

  /** The round a pass stops in, from `round` on. */
  function StopRound(limits: CacheLimits, liveBytes: nat -> nat, round: nat, entries: nat,
                     historyRows: nat): (stop: nat)
    ensures round <= stop
    decreases MAX_EVICTION_ROUNDS - round
  {
    if limits.IsUnbounded() || round >= MAX_EVICTION_ROUNDS then round
    else
      match Round(limits, liveBytes(round), entries, historyRows)
      case None => round
      case Some((fewer, shorter)) => StopRound(limits, liveBytes, round + 1, fewer, shorter)
  }

  /** With at most a hundred thousand rows, every pass under a quota ends with both quotas met as
      its last round measured them, or with at most one estimate and an empty log. */
  lemma {:induction false} PassSettles(limits: CacheLimits, liveBytes: nat -> nat, round: nat, entries: nat,
                                       historyRows: nat)
    requires !limits.IsUnbounded() && entries + historyRows + round <= 100_000
    ensures var (e, h) := PassCounts(limits, liveBytes, round, entries, historyRows);
            limits.Met(e, liveBytes(StopRound(limits, liveBytes, round, entries, historyRows))) || (e <= 1 && h == 0)
    decreases MAX_EVICTION_ROUNDS - round
  {
    hide Round, CacheLimits.Met;
    if round < MAX_EVICTION_ROUNDS {
      RoundProgress(limits, liveBytes(round), entries, historyRows);
      match Round(limits, liveBytes(round), entries, historyRows)
      case None =>
      case Some((fewer, shorter)) => PassSettles(limits, liveBytes, round + 1, fewer, shorter);
    }
  }

  /** A pass that finds only the entry quota exceeded leaves the log alone and exactly nine tenths
      of the quota. A quota of one has no nine tenths: there each round takes one row, down to one. */
  lemma {:induction false} EntryQuotaTarget(limits: CacheLimits, liveBytes: nat -> nat, round: nat, entries: nat,
                                            historyRows: nat)
    requires 0 < limits.maxEntries < entries && round < MAX_EVICTION_ROUNDS
    requires limits.maxBytes > 0 ==> forall i :: liveBytes(i) <= limits.maxBytes
    ensures PassCounts(limits, liveBytes, round, entries, historyRows) ==
              (if limits.maxEntries > 1 then limits.maxEntries * 9 / 10
                 else Max(1, entries - (100_000 - round)), historyRows)
    decreases MAX_EVICTION_ROUNDS - round
  {
    hide EvictionBatch, HistoryEvictionBatch;
    BatchBounds(entries, liveBytes(round), limits);
    if limits.maxEntries == 1 && entries > 2 && round + 1 < MAX_EVICTION_ROUNDS {
      EntryQuotaTarget(limits, liveBytes, round + 1, entries - 1, historyRows);
    }
  }

  /** Under a byte quota, with or without an entry quota, every round before the one a pass stops in
      measured too many bytes, or still had too many estimates: only the first round can have that
      unless the entry quota is one, and a quota of one takes at most a round per estimate. The pass
      stops at the first measurement within the quotas, unless nothing is left to give. Once it has
      evicted anything, at most nine tenths of the entry quota are left, even if that was met. */
  lemma {:induction false} ByteQuotaTarget(limits: CacheLimits, liveBytes: nat -> nat, round: nat, entries: nat,
                                           historyRows: nat)
    requires limits.maxBytes > 0
    requires entries + historyRows + round <= MAX_EVICTION_ROUNDS
    ensures var (e, h) := PassCounts(limits, liveBytes, round, entries, historyRows);
            var stop := StopRound(limits, liveBytes, round, entries, historyRows);
            && (forall i :: round <= i < stop ==>
                  || liveBytes(i) > limits.maxBytes
                  || (limits.maxEntries > 1 && i == round && entries > limits.maxEntries)
                  || (limits.maxEntries == 1 && i - round < entries - 1))
            && (limits.Met(e, liveBytes(stop)) || (e <= 1 && h == 0))
            && (stop > round && limits.maxEntries > 1 ==> e <= TargetEntries(limits))
    decreases MAX_EVICTION_ROUNDS - round
  {
    hide EvictionBatch, HistoryEvictionBatch, TargetEntries;
    if round < MAX_EVICTION_ROUNDS {
      RoundProgress(limits, liveBytes(round), entries, historyRows);
      match Round(limits, liveBytes(round), entries, historyRows)
      case None =>
      case Some((fewer, shorter)) =>
        if limits.maxEntries > 1 {
          RoundTrims(limits, liveBytes(round), entries, historyRows);
        }
        TargetIsWithin(limits);
        BatchBounds(entries, liveBytes(round), limits);
        ByteQuotaTarget(limits, liveBytes, round + 1, fewer, shorter);
        PassKeepsOne(limits, liveBytes, round + 1, fewer, shorter);
    }
  }

  lemma TargetIsWithin(limits: CacheLimits)
    ensures 10 * TargetEntries(limits) <= 9 * limits.maxEntries
    ensures limits.maxEntries > 1 ==> 0 < TargetEntries(limits) < limits.maxEntries
    ensures limits.maxEntries <= 1 ==> TargetEntries(limits) == 0
  {
  }

  /** Any round that goes on cuts the estimates to nine tenths of the entry quota. */
  lemma RoundTrims(limits: CacheLimits, bytes: nat, entries: nat, historyRows: nat)
    requires limits.maxEntries > 1
    ensures match Round(limits, bytes, entries, historyRows)
            case Some((fewer, _)) =>
              if entries > TargetEntries(limits) then fewer == TargetEntries(limits)
              else fewer <= TargetEntries(limits)
            case None => true
  {
    hide EvictionBatch, HistoryEvictionBatch, TargetEntries;
    BatchBounds(entries, bytes, limits);
    TargetIsWithin(limits);
  }

  predicate IsUnderNineTenths(limits: CacheLimits, entries: nat, bytes: nat) {
    && (limits.maxEntries > 0 ==> 10 * entries <= 9 * limits.maxEntries)
    && (limits.maxBytes > 0 ==> 10 * bytes <= 9 * limits.maxBytes)
  }

  /** The documentation says a pass ends under nine tenths of both quotas. One that evicts anything
      does exactly when the size at the round it stops in is under nine tenths of the byte quota; and
      a quota of one estimate has no nine tenths but zero. */
  lemma UnderNineTenthsIff(limits: CacheLimits, liveBytes: nat -> nat, round: nat, entries: nat, historyRows: nat)
    requires StopRound(limits, liveBytes, round, entries, historyRows) > round
    ensures var (e, h) := PassCounts(limits, liveBytes, round, entries, historyRows);
            var last := liveBytes(StopRound(limits, liveBytes, round, entries, historyRows));
            IsUnderNineTenths(limits, e, last) <==>
              && (limits.maxBytes > 0 ==> 10 * last <= 9 * limits.maxBytes)
              && (limits.maxEntries == 1 ==> entries == 0)
  {
    hide EvictionBatch, HistoryEvictionBatch, TargetEntries;
    RoundProgress(limits, liveBytes(round), entries, historyRows);
    TargetIsWithin(limits);
    match Round(limits, liveBytes(round), entries, historyRows)
    case Some((fewer, shorter)) =>
      PassKeepsOne(limits, liveBytes, round + 1, fewer, shorter);
      if limits.maxEntries > 1 {
        RoundTrims(limits, liveBytes(round), entries, historyRows);
      }
  }

  /** Under the shipped quotas a pass that measures too many bytes and then enough room cuts a table
      that met its entry quota to nine tenths of it, and stops short of nine tenths of the bytes. */
  lemma DefaultQuotasAreNotBothTrimmed(liveBytes: nat -> nat, entries: nat, historyRows: nat)
    requires liveBytes(0) > DEFAULT_LIMITS.maxBytes && 9_000 < entries <= 10_000
    requires liveBytes(1) == DEFAULT_LIMITS.maxBytes
    ensures DEFAULT_LIMITS == CacheLimits(52_428_800, 10_000)
    ensures PassCounts(DEFAULT_LIMITS, liveBytes, 0, entries, historyRows).0 == 9_000
    ensures StopRound(DEFAULT_LIMITS, liveBytes, 0, entries, historyRows) == 1
    ensures !IsUnderNineTenths(DEFAULT_LIMITS, 9_000, liveBytes(1))
  {
    hide EvictionBatch, HistoryEvictionBatch;
    BatchBounds(entries, liveBytes(0), DEFAULT_LIMITS);
  }

  /** So a pass over a quota of 100 bytes that measures 200 and then 95 stops at 95. */
  lemma ByteQuotaIsNotTrimmed(limits: CacheLimits, liveBytes: nat -> nat, entries: nat, historyRows: nat)
    requires limits == CacheLimits(100, 0) && liveBytes(0) == 200 && liveBytes(1) == 95
    requires entries > 1 && entries + historyRows <= MAX_EVICTION_ROUNDS
    ensures StopRound(limits, liveBytes, 0, entries, historyRows) == 1
  {
    hide EvictionBatch, HistoryEvictionBatch;
    RoundProgress(limits, 200, entries, historyRows);
  }

  /** A byte quota that no deletion meets leaves one estimate and empties the log. */
  lemma ImpossibleQuotaEmptiesTheLog(limits: CacheLimits, liveBytes: nat -> nat, entries: nat, historyRows: nat)
    requires limits.maxBytes > 0 && forall i :: liveBytes(i) > limits.maxBytes
    requires entries + historyRows <= MAX_EVICTION_ROUNDS
    ensures PassCounts(limits, liveBytes, 0, entries, historyRows) == (Min(entries, 1), 0)
  {
    hide PassCounts, Round;
    PassSettles(limits, liveBytes, 0, entries, historyRows);
    PassKeepsOne(limits, liveBytes, 0, entries, historyRows);
  }

  lemma {:induction false} PassKeepsOne(limits: CacheLimits, liveBytes: nat -> nat, round: nat, entries: nat,
                                        historyRows: nat)
    ensures var (e, h) := PassCounts(limits, liveBytes, round, entries, historyRows);
            e <= entries && h <= historyRows && (entries > 0 ==> e > 0)
    decreases MAX_EVICTION_ROUNDS - round
  {
    hide Round;
    if !limits.IsUnbounded() && round < MAX_EVICTION_ROUNDS {
      RoundProgress(limits, liveBytes(round), entries, historyRows);
      match Round(limits, liveBytes(round), entries, historyRows)
      case None =>
      case Some((fewer, shorter)) => PassKeepsOne(limits, liveBytes, round + 1, fewer, shorter);
    }
  }

  // ----- The table refines the plain map -----

  ghost function Shown(rows: map<Key, Row>, k: Key): Option<Payload> {
    if k in rows then Some(rows[k].payload) else None
  }

  /** Same keys, same payloads. */
  ghost predicate Refines(instantOf: string -> Option<int>, initial: map<Key, Payload>, trace: seq<Op>,
                          rows: map<Key, Row>) {
    forall k :: Held(instantOf, initial, trace, k) == Shown(rows, k)
  }

  /** The table changed from `before` to `after` as `op` changes a plain map. */
  ghost predicate StepsTo(instantOf: string -> Option<int>, op: Op, before: map<Key, Row>, after: map<Key, Row>) {
    forall k :: Shown(after, k) == HeldNext(instantOf, op, k, Shown(before, k))
  }

  lemma RefinesNext(instantOf: string -> Option<int>, initial: map<Key, Payload>, trace: seq<Op>, op: Op,
                    before: map<Key, Row>, after: map<Key, Row>)
    requires Refines(instantOf, initial, trace, before) && StepsTo(instantOf, op, before, after)
    ensures Refines(instantOf, initial, trace + [op], after)
  {
    hide HeldNext, Shown;
    forall k
      ensures Held(instantOf, initial, trace + [op], k) == Shown(after, k)
    {
      assert (trace + [op])[..|trace|] == trace;
      assert Held(instantOf, initial, trace, k) == Shown(before, k);
    }
  }

  ghost function Payloads(rows: map<Key, Row>): map<Key, Payload> {
    map k | k in rows :: rows[k].payload
  }

  /** Over any run of operations, the table shows what the plain map holds. */
  lemma {:induction false} RunRefines(instantOf: string -> Option<int>, ops: seq<Op>, tables: seq<map<Key, Row>>)
    requires |tables| == |ops| + 1
    requires forall i :: 0 <= i < |ops| ==> StepsTo(instantOf, ops[i], tables[i], tables[i + 1])
    ensures Refines(instantOf, Payloads(tables[0]), ops, tables[|ops|])
    decreases |ops|
  {
    hide StepsTo;
    if ops == [] {
    } else {
      var n := |ops| - 1;
      hide Refines;
      RunRefines(instantOf, ops[..n], tables[..n + 1]);
      RefinesNext(instantOf, Payloads(tables[0]), ops[..n], ops[n], tables[n], tables[n + 1]);
      assert ops == ops[..n] + [ops[n]];
    }
  }

  lemma SaveSteps(instantOf: string -> Option<int>, rows: map<Key, Row>, k: Key, row: Row)
    ensures StepsTo(instantOf, Save(k, row.payload), rows, rows[k := row])
  {
  }

  lemma TouchSteps(instantOf: string -> Option<int>, rows: map<Key, Row>, k: Key, now: string)
    requires k in rows
    ensures StepsTo(instantOf, Touch(k), rows, rows[k := rows[k].(lastAccessed := now)])
  {
  }

  lemma EvictSteps(instantOf: string -> Option<int>, before: map<Key, Row>, after: map<Key, Row>)
    requires Evicts(before, after)
    ensures StepsTo(instantOf, Evict(before.Keys - after.Keys), before, after)
  {
  }

  lemma RemoveSteps(instantOf: string -> Option<int>, op: Op, rows: map<Key, Row>, victims: set<Key>)
    requires !op.Save? && victims <= rows.Keys
    requires forall k :: k in rows ==> (k in victims <==> Removes(instantOf, op, k, rows[k].payload))
    ensures StepsTo(instantOf, op, rows, rows - victims)
  {
    hide Removes;
  }

  lemma ClearSteps(instantOf: string -> Option<int>, rows: map<Key, Row>, network: string, victims: set<Key>)
    requires victims == set k | k in rows && rows[k].payload.network == network
    ensures StepsTo(instantOf, ClearNetwork(network), rows, rows - victims)
    ensures rows - victims == map k | k in rows && rows[k].payload.network != network :: rows[k]
  {
    hide StepsTo;
    RemoveSteps(instantOf, ClearNetwork(network), rows, victims);
  }

  lemma RemoveWasmSteps(instantOf: string -> Option<int>, rows: map<Key, Row>, wasmHash: string, victims: set<Key>)
    requires victims == set k | k in rows && k.wasmHash == wasmHash
    ensures StepsTo(instantOf, RemoveWasm(wasmHash), rows, rows - victims)
    ensures rows - victims == map k | k in rows && k.wasmHash != wasmHash :: rows[k]
  {
    hide StepsTo;
    RemoveSteps(instantOf, RemoveWasm(wasmHash), rows, victims);
  }

  // ----- The history log -----

  predicate IdsIncrease(history: seq<HistoryRow>, nextId: nat) {
    && (forall i, j :: 0 <= i < j < |history| ==> history[i].id < history[j].id)
    && (forall i :: 0 <= i < |history| ==> history[i].id < nextId)
  }

  /** The log lost only its oldest entries. */
  predicate IsSuffix(after: seq<HistoryRow>, before: seq<HistoryRow>) {
    |after| <= |before| && after == before[|before| - |after|..]
  }

  lemma SuffixOfItself(history: seq<HistoryRow>)
    ensures IsSuffix(history, history)
  {
  }

  lemma SuffixCompose(a: seq<HistoryRow>, b: seq<HistoryRow>, c: seq<HistoryRow>)
    requires IsSuffix(b, a) && IsSuffix(c, b)
    ensures IsSuffix(c, a)
  {
  }

  lemma SuffixDrop(before: seq<HistoryRow>, after: seq<HistoryRow>, n: nat)
    requires IsSuffix(after, before) && n <= |after|
    ensures IsSuffix(after[n..], before)
  {
  }

  lemma AppendKeepsIds(history: seq<HistoryRow>, row: HistoryRow, nextId: nat)
    requires IdsIncrease(history, nextId) && row.id == nextId
    ensures IdsIncrease(history + [row], nextId + 1)
  {
  }

  lemma SuffixKeepsIds(before: seq<HistoryRow>, after: seq<HistoryRow>, nextId: nat)
    requires IsSuffix(after, before) && IdsIncrease(before, nextId)
    ensures IdsIncrease(after, nextId)
  {
  }

  function OfOtherNetwork(network: string): HistoryRow -> bool {
    (h: HistoryRow) => h.network != network
  }

  function OfOtherWasm(wasmHash: string): HistoryRow -> bool {
    (h: HistoryRow) => h.wasmHash != wasmHash
  }

  lemma {:induction false} FilterKeepsIds(history: seq<HistoryRow>, nextId: nat, p: HistoryRow -> bool)
    requires IdsIncrease(history, nextId)
    ensures IdsIncrease(Filter(history, p), nextId)
  {
    if history == [] {
    } else {
      FilterKeepsIds(history[1..], nextId, p);
      forall i | 0 <= i < |Filter(history[1..], p)|
        ensures history[0].id < Filter(history[1..], p)[i].id
      {
        FilterMembers(history[1..], p, Filter(history[1..], p)[i]);
      }
    }
  }

  // ----- The cache -----

  class EstimateCache {
    const digest: string -> string
    const instantOf: string -> Option<int>
    const known: string -> bool

    var rows: map<Key, Row>
    var history: seq<HistoryRow>
    var nextId: nat

    ghost const initial: map<Key, Payload>
    ghost var trace: seq<Op>

    /** The table is the plain map: same keys, same payloads. */
    ghost predicate Valid()
      reads this
    {
      && IdsIncrease(history, nextId)
      && Refines(instantOf, initial, trace, rows)
    }

    /** Opens a cache file that earlier runs left behind. */
    constructor (digest: string -> string, instantOf: string -> Option<int>, known: string -> bool,
                 rows: map<Key, Row>, history: seq<HistoryRow>, nextId: nat)
      requires IdsIncrease(history, nextId)
      ensures Valid() && this.rows == rows && this.history == history && trace == []
      ensures this.digest == digest && this.instantOf == instantOf && this.known == known
    {
      this.digest, this.instantOf, this.known := digest, instantOf, known;
      this.rows, this.history, this.nextId := rows, history, nextId;
      initial := map k | k in rows :: rows[k].payload;
      trace := [];
    }

    /** The rows a filter selects. */
    function Matching(f: CacheFilter): set<Key>
      reads this
    {
      set k | k in rows && Selects(f, instantOf, k, rows[k].payload)
    }

    /** Writes down what was just done. */
    ghost method Record(op: Op, before: map<Key, Row>)
      requires Refines(instantOf, initial, trace, before) && StepsTo(instantOf, op, before, rows)
      modifies this`trace
      ensures trace == old(trace) + [op]
      ensures Refines(instantOf, initial, trace, rows)
    {
      RefinesNext(instantOf, initial, trace, op, before, rows);
      trace := trace + [op];
    }

    /** Looks an entry up, and marks a hit as most recently used. */
    method LoadEstimate(wasmHash: string, fn: string, args: seq<string>, now: string)
      returns (r: Result<Option<Payload>, CacheError>)
      requires Valid()
      modifies this`rows, this`trace
      ensures Valid()
      ensures var k := KeyOf(digest, wasmHash, fn, args);
              match Held(instantOf, initial, old(trace), k)
              case None => r == Ok(None) && rows == old(rows) && trace == old(trace)
              case Some(p) =>
                if Readable(p) then
                  && r == Ok(Some(Migrated(p)))
                  && rows == old(rows)[k := old(rows)[k].(lastAccessed := now)]
                  && trace == old(trace) + [Touch(k)]
                else r == Err(NewerSchema(p.version)) && rows == old(rows) && trace == old(trace)
    {
      hide StepsTo, HeldNext, MigrateSteps;
      var k := KeyOf(digest, wasmHash, fn, args);
      assert Held(instantOf, initial, trace, k) == Shown(rows, k);
      if k !in rows {
        return Ok(None);
      }
      var migrated := MigrateToLatest(rows[k].payload);
      if migrated.Err? {
        return Err(migrated.error);
      }
      rows := rows[k := rows[k].(lastAccessed := now)];
      TouchSteps(instantOf, old(rows), k, now);
      Record(Touch(k), old(rows));
      return Ok(Some(migrated.value));
    }

    /** `DELETE ... ORDER BY last_accessed, timestamp LIMIT batch`. */
    method DeleteOldest(batch: nat) returns (removed: nat)
      modifies this`rows
      ensures removed == Min(batch, |old(rows)|)
      ensures |rows| == |old(rows)| - removed
      ensures batch < |old(rows)| ==> Evicts(old(rows), rows)
    {
      ghost var someVictims := OldestExist(rows, batch);
      var victims :| victims <= rows.Keys && IsOldest(rows, victims, batch);
      OldestGo(rows, victims, batch);
      removed := |victims|;
      rows := rows - victims;
    }

    /** One round of a pass, with `bytes` measured at its start: the oldest estimates go, and under
        byte pressure the oldest log rows too. */
    method EvictionRound(limits: CacheLimits, bytes: nat) returns (removed: nat, stop: bool)
      modifies this`rows, this`history
      ensures removed == |old(rows)| - |rows|
      ensures Evicts(old(rows), rows) && IsSuffix(history, old(history))
      ensures match Round(limits, bytes, |old(rows)|, |old(history)|)
              case None => stop && rows == old(rows) && history == old(history)
              case Some((fewer, shorter)) => !stop && |rows| == fewer && |history| == shorter
      // What it removes, in terms of the quotas and the average size of a row.
      ensures !stop ==> TrimsEstimates(limits, bytes, |old(rows)|, |rows|)
      ensures !stop ==> TrimsLog(limits, bytes, |old(history)|, |history|)
    {
      hide EvictionBatch, HistoryEvictionBatch, Evicts, IsSuffix, TrimsEstimates, TrimsLog;
      EvictsNothing(rows);
      SuffixOfItself(history);
      RoundTrimsBy(limits, bytes, |rows|, |history|);
      removed := 0;
      var entries, historyRows := |rows|, |history|;
      var overEntries := limits.maxEntries > 0 && entries > limits.maxEntries;
      var overBytes := limits.maxBytes > 0 && bytes > limits.maxBytes;
      if !overEntries && !overBytes {
        return 0, true;
      }
      var removedAny := false;
      if entries > 1 {
        BatchBounds(entries, bytes, limits);
        removed := DeleteOldest(EvictionBatch(entries, bytes, limits));
        removedAny := removed > 0;
      }
      if overBytes && historyRows > 0 {
        HistoryBatchBounds(historyRows, bytes, limits);
        var batch := HistoryEvictionBatch(historyRows, bytes, limits);
        SuffixDrop(history, history, batch);
        history := history[batch..];
        removedAny := removedAny || batch > 0;
      }
      stop := !removedAny;
    }

    /** One eviction pass under `limits`; `liveBytes(i)` is the size measured in round `i`. */
    method EnforceLimits(limits: CacheLimits, liveBytes: nat -> nat) returns (evicted: nat)
      modifies this`rows, this`history
      ensures Evicts(old(rows), rows) && IsSuffix(history, old(history))
      ensures (|rows|, |history|) == PassCounts(limits, liveBytes, 0, |old(rows)|, |old(history)|)
      ensures evicted == |old(rows)| - |rows|
      ensures limits.IsUnbounded() || limits.Met(|old(rows)|, liveBytes(0)) ==>
                rows == old(rows) && history == old(history)
    {
      hide Round, PassCounts, Evicts, IsSuffix;
      EvictsNothing(rows);
      SuffixOfItself(history);
      MetStops(limits, liveBytes(0), |rows|, |history|);
      evicted := 0;
      if limits.IsUnbounded() {
        PassStops(limits, liveBytes, 0, |rows|, |history|);
        return;
      }
      for round := 0 to MAX_EVICTION_ROUNDS
        invariant Evicts(old(rows), rows) && IsSuffix(history, old(history))
        invariant PassCounts(limits, liveBytes, round, |rows|, |history|)
                    == PassCounts(limits, liveBytes, 0, |old(rows)|, |old(history)|)
        invariant evicted == |old(rows)| - |rows|
        invariant round == 0 ==> rows == old(rows) && history == old(history)
        invariant limits.Met(|old(rows)|, liveBytes(0)) ==> round == 0
      {
        ghost var before, logged := rows, history;
        var removed, stop := EvictionRound(limits, liveBytes(round));
        EvictsCompose(old(rows), before, rows);
        SuffixCompose(old(history), logged, history);
        evicted := evicted + removed;
        if stop {
          PassStops(limits, liveBytes, round, |rows|, |history|);
          return;
        }
        PassGoesOn(limits, liveBytes, round, |before|, |logged|, |rows|, |history|);
      }
      PassStops(limits, liveBytes, MAX_EVICTION_ROUNDS, |rows|, |history|);
    }

    /** `evict_lru`: a pass on demand. */
    method EvictLru(limits: CacheLimits, liveBytes: nat -> nat) returns (evicted: nat)
      requires Valid()
      modifies this`rows, this`history, this`trace
      ensures Valid()
      ensures Evicts(old(rows), rows) && IsSuffix(history, old(history))
      ensures (|rows|, |history|) == PassCounts(limits, liveBytes, 0, |old(rows)|, |old(history)|)
      ensures evicted == |old(rows)| - |rows|
      ensures trace == old(trace) + [Evict(old(rows).Keys - rows.Keys)]
    {
      hide Refines, StepsTo, Evicts, IsSuffix, IdsIncrease, PassCounts;
      evicted := EnforceLimits(limits, liveBytes);
      SuffixKeepsIds(old(history), history, nextId);
      EvictSteps(instantOf, old(rows), rows);
      Record(Evict(old(rows).Keys - rows.Keys), old(rows));
    }

    /** Writes an entry over whatever its key held, logs it, and enforces the quotas. */
    method SaveEstimate(wasmHash: string, fn: string, args: seq<string>, estimate: Payload, now: string,
                        limits: CacheLimits, liveBytes: nat -> nat)
      requires Valid()
      modifies this
      ensures Valid()
      ensures var k := KeyOf(digest, wasmHash, fn, args);
              var p := estimate.(version := CACHE_SCHEMA_VERSION, timestamp := now);
              var written := old(rows)[k := Row(p, now)];
              && Evicts(written, rows)
              && (|rows|, |history|) == PassCounts(limits, liveBytes, 0, |written|, |old(history)| + 1)
              && (limits.IsUnbounded() ==> rows == written)
              && trace == old(trace) + [Save(k, p), Evict(written.Keys - rows.Keys)]
              && IsSuffix(history, old(history) + [LogEntry(old(nextId), wasmHash, fn, p)])
              // The pass of its own save never takes an entry newer than all others.
              && ((forall s :: s in old(rows) && s != k ==> !NotAfter(Row(p, now), old(rows)[s]))
                  ==> k in rows && rows[k] == Row(p, now))
      ensures nextId == old(nextId) + 1
    {
      hide Refines, StepsTo, Evicts, IsSuffix, IdsIncrease, NotAfter, PassCounts, CacheLimits.Met;
      var k := KeyOf(digest, wasmHash, fn, args);
      var p := estimate.(version := CACHE_SCHEMA_VERSION, timestamp := now);
      rows := rows[k := Row(p, now)];
      SaveSteps(instantOf, old(rows), k, Row(p, now));
      Record(Save(k, p), old(rows));
      history := history + [LogEntry(nextId, wasmHash, fn, p)];
      nextId := nextId + 1;
      AppendKeepsIds(old(history), history[|history| - 1], old(nextId));
      ghost var written, logged := rows, history;
      var _ := EnforceLimits(limits, liveBytes);
      SuffixKeepsIds(logged, history, nextId);
      EvictSteps(instantOf, written, rows);
      Record(Evict(written.Keys - rows.Keys), written);
      if forall s :: s in old(rows) && s != k ==> !NotAfter(Row(p, now), old(rows)[s]) {
        NewestSurvives(written, rows, k);
      }
    }

    /** `cache clear`: drops a network's entries and its log. */
    method ClearNetworkEntries(network: string) returns (removed: nat)
      requires Valid()
      modifies this`rows, this`history, this`trace
      ensures Valid()
      ensures rows == map k | k in old(rows) && old(rows)[k].payload.network != network :: old(rows)[k]
      ensures removed == |old(rows)| - |rows|
      ensures history == Filter(old(history), OfOtherNetwork(network))
      ensures forall h :: h in history <==> h in old(history) && h.network != network
      ensures trace == old(trace) + [ClearNetwork(network)]
    {
      hide Refines, StepsTo, IdsIncrease, Filter;
      var victims := set k | k in rows && rows[k].payload.network == network;
      removed := DeleteKeys(victims);
      forall h
        ensures h in Filter(history, OfOtherNetwork(network)) <==> h in history && h.network != network
      {
        FilterMembers(history, OfOtherNetwork(network), h);
      }
      history := Filter(history, OfOtherNetwork(network));
      FilterKeepsIds(old(history), nextId, OfOtherNetwork(network));
      ClearSteps(instantOf, old(rows), network, victims);
      Record(ClearNetwork(network), old(rows));
    }

    /** Drops the entries and log of a build that has been replaced. */
    method RemoveCachedEstimatesForWasm(wasmHash: string) returns (removed: nat)
      requires Valid()
      modifies this`rows, this`history, this`trace
      ensures Valid()
      ensures rows == map k | k in old(rows) && k.wasmHash != wasmHash :: old(rows)[k]
      ensures removed == |old(rows)| - |rows|
      ensures history == Filter(old(history), OfOtherWasm(wasmHash))
      ensures forall h :: h in history <==> h in old(history) && h.wasmHash != wasmHash
      ensures trace == old(trace) + [RemoveWasm(wasmHash)]
    {
      hide Refines, StepsTo, IdsIncrease, Filter;
      var victims := set k | k in rows && k.wasmHash == wasmHash;
      removed := DeleteKeys(victims);
      forall h
        ensures h in Filter(history, OfOtherWasm(wasmHash)) <==> h in history && h.wasmHash != wasmHash
      {
        FilterMembers(history, OfOtherWasm(wasmHash), h);
      }
      history := Filter(history, OfOtherWasm(wasmHash));
      FilterKeepsIds(old(history), nextId, OfOtherWasm(wasmHash));
      RemoveWasmSteps(instantOf, old(rows), wasmHash, victims);
      Record(RemoveWasm(wasmHash), old(rows));
    }

    /** Deletes the given rows one by one. */
    method DeleteKeys(victims: set<Key>) returns (removed: nat)
      requires victims <= rows.Keys
      modifies this`rows
      ensures rows == old(rows) - victims
      ensures removed == |victims| == |old(rows)| - |rows|
    {
      removed := 0;
      var rest := victims;
      ghost var done: set<Key> := {};
      assert rows == rows - done;
      while rest != {}
        invariant done !! rest && done + rest == victims
        invariant rows == old(rows) - done
        invariant removed == |done| && |rows| == |old(rows)| - removed
        decreases |rest|
      {
        var k :| k in rest;
        RemoveOne(old(rows), done, k);
        rows := rows - {k};
        rest, done := rest - {k}, done + {k};
        removed := removed + 1;
      }
      assert done == victims;
    }

    /** Deletes exactly the rows the filter selects, and says how many: rows a newer release wrote
        stay, and a second count finds nothing. An invalid filter deletes nothing. */
    method DeleteCachedEstimates(f: CacheFilter) returns (r: Result<nat, CacheError>)
      requires Valid()
      modifies this`rows, this`trace
      ensures Valid()
      ensures !IsValidFilter(f, known) ==> r == Err(InvalidFilter) && rows == old(rows) && trace == old(trace)
      ensures IsValidFilter(f, known) ==>
                && r == Ok(|old(Matching(f))|)
                && (forall k :: k in old(rows) ==>
                      (k !in rows <==>
                         Readable(old(rows)[k].payload) && IsWanted(f, instantOf, k, old(rows)[k].payload)))
                && rows == old(rows) - old(Matching(f))
                && |rows| == |old(rows)| - |old(Matching(f))|
                && Matching(f) == {}
                && (forall k :: k in old(rows) && !Readable(old(rows)[k].payload) ==>
                      k in rows && rows[k] == old(rows)[k])
                && trace == old(trace) + [DeleteMatching(f)]
    {
      hide Refines, StepsTo, IdsIncrease, IsValidFilter, Matches, IsWanted;
      if !IsValidFilter(f, known) {
        return Err(InvalidFilter);
      }
      forall k | k in rows
        ensures k in Matching(f) <==> Readable(rows[k].payload) && IsWanted(f, instantOf, k, rows[k].payload)
      {
        SelectsIff(f, instantOf, k, rows[k].payload);
      }
      var keys := Matching(f);
      var removed := DeleteKeys(keys);
      RemoveSteps(instantOf, DeleteMatching(f), old(rows), keys);
      Record(DeleteMatching(f), old(rows));
      return Ok(removed);
    }

    /** The selected entries, migrated, newest first. */
    method QueryCache(f: CacheFilter) returns (r: Result<seq<Estimate>, CacheError>)
      ensures !IsValidFilter(f, known) ==> r == Err(InvalidFilter)
      ensures IsValidFilter(f, known) ==> r.Ok? && IsListing(f, r.value)
    {
      if !IsValidFilter(f, known) {
        return Err(InvalidFilter);
      }
      var found: seq<Estimate> := [];
      var rest := Matching(f);
      ghost var all := rest;
      while rest != {}
        invariant rest <= all
        invariant |found| == |all| - |rest|
        invariant forall i, j :: 0 <= i < j < |found| ==> found[i].key != found[j].key
        invariant forall i :: 0 <= i < |found| ==> found[i].key in all - rest && found[i] == EntryOf(found[i].key)
        invariant forall k :: k in all - rest ==> EntryOf(k) in found
        decreases |rest|
      {
        var k :| k in rest;
        found := found + [EntryOf(k)];
        rest := rest - {k};
      }
      NewerFirstIsOrder();
      SortSorts(found, NewerFirst);
      SortElements(found, NewerFirst);
      assert Pairwise(found, DifferentKeys);
      SortPairwise(found, NewerFirst, DifferentKeys);
      SameMembers(found, StableSort(found, NewerFirst));
      return Ok(StableSort(found, NewerFirst));
    }

    function EntryOf(k: Key): Estimate
      requires k in rows && Readable(rows[k].payload)
      reads this
    {
      Estimate(k, Migrated(rows[k].payload))
    }

    /** Each selected row exactly once, newest first by timestamp. */
    ghost predicate IsListing(f: CacheFilter, list: seq<Estimate>)
      reads this
    {
      && |list| == |Matching(f)|
      && Pairwise(list, DifferentKeys)
      && (forall e :: e in list <==> e.key in Matching(f) && e == EntryOf(e.key))
      && Sorted(list, NewerFirst)
    }

    /** A listing shows exactly the readable rows the filter wants, as they are stored. */
    lemma ListingHolds(f: CacheFilter, list: seq<Estimate>, k: Key)
      requires IsListing(f, list)
      ensures (exists e :: e in list && e.key == k) <==>
                k in rows && Readable(rows[k].payload) && IsWanted(f, instantOf, k, rows[k].payload)
    {
      hide IsWanted, MigrateToLatest, NewerFirst;
      if k in rows {
        SelectsIff(f, instantOf, k, rows[k].payload);
      }
      if k in Matching(f) {
        assert EntryOf(k) in list;
      }
    }

    /** While the cache does not change, any two queries with one filter answer alike, if no two
        selected entries share a timestamp. */
    lemma ListingIsUnique(f: CacheFilter, a: seq<Estimate>, b: seq<Estimate>)
      requires IsListing(f, a) && IsListing(f, b) && Pairwise(a, DifferentTimes)
      ensures a == b
    {
      hide NewerFirst, DifferentTimes, DifferentKeys, Selects, MigrateToLatest;
      ListingsAgree(a, b);
    }

    /** And so pages that each come from a query of their own make up the listing. */
    lemma QueriedPagesAreTheListing(f: CacheFilter, lists: nat -> seq<Estimate>, limit: nat)
      requires limit > 0 && Pairwise(lists(0), DifferentTimes)
      requires forall o :: IsListing(f, lists(o))
      ensures QueriedPages(lists, limit, 0) == lists(0)
    {
      hide IsListing, DifferentTimes;
      forall o: nat
        ensures lists(o) == lists(0)
      {
        ListingIsUnique(f, lists(0), lists(o));
      }
      SameListPages(lists, limit, 0);
      PagesAreTheListing(lists(0), limit, 0);
      assert lists(0)[0..] == lists(0);
    }
  }

  function LogEntry(id: nat, wasmHash: string, fn: string, p: Payload): HistoryRow {
    HistoryRow(id, wasmHash, fn, p.network, p.ledger, p.totalStroops, p.cpuInstructions, p.memoryBytes,
               p.timestamp, p.io)
  }

  /** A log row repeats what was saved, and when. */
  lemma LogEntryShows(id: nat, k: Key, p: Payload)
    ensures var row := LogEntry(id, k.wasmHash, k.fn, p);
            && row.id == id && row.wasmHash == k.wasmHash && row.fn == k.fn
            && row.network == p.network && row.ledger == p.ledger && row.timestamp == p.timestamp
            && row.totalStroops == p.totalStroops && row.io == p.io
            && row.cpuInstructions == p.cpuInstructions && row.memoryBytes == p.memoryBytes
  {
  }

  // ----- Listings -----

  predicate NewerFirst(a: Estimate, b: Estimate) {
    AtMost(b.payload.timestamp, a.payload.timestamp)
  }

  lemma NewerFirstIsOrder()
    ensures IsOrder(NewerFirst)
  {
    forall a, b
      ensures NewerFirst(a, b) || NewerFirst(b, a)
    {
      AtMostTotal(a.payload.timestamp, b.payload.timestamp);
    }
    forall a, b, c | NewerFirst(a, b) && NewerFirst(b, c)
      ensures NewerFirst(a, c)
    {
      AtMostTransitive(c.payload.timestamp, b.payload.timestamp, a.payload.timestamp);
    }
  }

  /** The order of a listing is the newest first, for times written with one numeric offset. */
  lemma NewerFirstIsByTime(a: Estimate, b: Estimate, x: SnapshotNames.Stamp, y: SnapshotNames.Stamp)
    requires Timestamps.IsMoment(x) && Timestamps.IsMoment(y) && x.offset == y.offset && !x.offset.Zulu?
    requires a.payload.timestamp == SnapshotNames.StampText(x) && b.payload.timestamp == SnapshotNames.StampText(y)
    ensures NewerFirst(a, b) ==> Timestamps.Instant(x) >= Timestamps.Instant(y)
    ensures Timestamps.Instant(x) > Timestamps.Instant(y) ==> NewerFirst(a, b) && !NewerFirst(b, a)
  {
    hide SnapshotNames.StampText, Timestamps.Instant, Timestamps.IsMoment, AtMost;
    Timestamps.NumericOffsetsSortByTime(y, x);
    AtMostTotal(a.payload.timestamp, b.payload.timestamp);
  }

  predicate DifferentKeys(a: Estimate, b: Estimate) {
    a.key != b.key
  }

  predicate DifferentTimes(a: Estimate, b: Estimate) {
    a.payload.timestamp != b.payload.timestamp
  }

  lemma FirstIsNewest(s: seq<Estimate>, e: Estimate)
    requires Sorted(s, NewerFirst) && e in s
    ensures AtMost(e.payload.timestamp, s[0].payload.timestamp)
  {
    hide AtMost;
    AtMostTotal(e.payload.timestamp, e.payload.timestamp);
    var i :| 0 <= i < |s| && s[i] == e;
    assert i == 0 || NewerFirst(s[0], s[i]);
  }

  lemma FirstAgrees(a: seq<Estimate>, b: seq<Estimate>)
    requires a != [] && b != []
    requires Sorted(a, NewerFirst) && Sorted(b, NewerFirst) && Pairwise(a, DifferentTimes)
    requires forall e :: e in a <==> e in b
    ensures a[0] == b[0]
  {
    hide AtMost;
    forall k | 0 < k < |a|
      ensures a[k].payload.timestamp != a[0].payload.timestamp
    {
      assert DifferentTimes(a[0], a[k]);
    }
    assert b[0] in a && a[0] in b;
    FirstIsNewest(a, b[0]);
    FirstIsNewest(b, a[0]);
    AtMostAntisymmetric(a[0].payload.timestamp, b[0].payload.timestamp);
  }

  /** Without equal timestamps there is only one listing, so asking again gives it again. */
  lemma {:induction false} ListingsAgree(a: seq<Estimate>, b: seq<Estimate>)
    requires Sorted(a, NewerFirst) && Sorted(b, NewerFirst)
    requires Pairwise(a, DifferentTimes) && Pairwise(b, DifferentKeys)
    requires forall e :: e in a <==> e in b
    ensures a == b
  {
    hide NewerFirst;
    assert a == [] <==> b == [] by {
      if a != [] {
        assert a[0] in a;
      }
      if b != [] {
        assert b[0] in b;
      }
    }
    if a == [] {
    } else {
      FirstAgrees(a, b);
      forall e
        ensures e in a[1..] <==> e in b[1..]
      {
        FirstOccursOnce(a, DifferentTimes);
        FirstOccursOnce(b, DifferentKeys);
        assert a == [a[0]] + a[1..] && b == [b[0]] + b[1..];
        assert e in a <==> e in b;
      }
      ListingsAgree(a[1..], b[1..]);
      assert a == [a[0]] + a[1..] && b == [b[0]] + b[1..];
    }
  }

  lemma FirstOccursOnce(s: seq<Estimate>, differ: (Estimate, Estimate) -> bool)
    requires s != [] && Pairwise(s, differ) && forall e :: !differ(e, e)
    ensures s[0] !in s[1..]
  {
    forall i | 1 <= i < |s|
      ensures s[i] != s[0]
    {
      assert differ(s[0], s[i]);
    }
  }

  const MAX_LIST_LIMIT := 1000

  /** One page of a listing, its size capped. */
  function Page<T>(matched: seq<T>, limit: nat, offset: nat): seq<T> {
    var from := Min(offset, |matched|);
    matched[from..Min(from + Min(limit, MAX_LIST_LIMIT), |matched|)]
  }

  /** The pages a caller sees who advances by the capped limit each time. */
  function Pages<T>(matched: seq<T>, limit: nat, offset: nat): seq<T>
    requires limit > 0
    decreases if offset < |matched| then |matched| - offset else 0
  {
    if offset >= |matched| then []
    else Page(matched, limit, offset) + Pages(matched, limit, offset + Min(limit, MAX_LIST_LIMIT))
  }

  /** Paging loses and repeats nothing, and no page is longer than the cap. */
  lemma {:induction false} PagesAreTheListing<T>(matched: seq<T>, limit: nat, offset: nat)
    requires limit > 0 && offset <= |matched|
    ensures Pages(matched, limit, offset) == matched[offset..]
    ensures |Page(matched, limit, offset)| == Min(Min(limit, 1000), |matched| - offset)
    decreases |matched| - offset
  {
    if offset < |matched| {
      var next := offset + Min(limit, MAX_LIST_LIMIT);
      if next <= |matched| {
        PagesAreTheListing(matched, limit, next);
      }
    }
  }

  /** The pages when every one comes from a query of its own; `lists(o)` is what the query for
      offset `o` finds. */
  function QueriedPages(lists: nat -> seq<Estimate>, limit: nat, offset: nat): seq<Estimate>
    requires limit > 0
    decreases if offset < |lists(0)| then |lists(0)| - offset else 0
  {
    if offset >= |lists(0)| then []
    else Page(lists(offset), limit, offset) + QueriedPages(lists, limit, offset + Min(limit, MAX_LIST_LIMIT))
  }

  lemma {:induction false} SameListPages(lists: nat -> seq<Estimate>, limit: nat, offset: nat)
    requires limit > 0 && forall o :: lists(o) == lists(0)
    ensures QueriedPages(lists, limit, offset) == Pages(lists(0), limit, offset)
    decreases if offset < |lists(0)| then |lists(0)| - offset else 0
  {
    hide Page;
    if offset < |lists(0)| {
      assert lists(offset) == lists(0);
      SameListPages(lists, limit, offset + Min(limit, MAX_LIST_LIMIT));
    }
  }
}
