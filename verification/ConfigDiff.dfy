/** Config snapshots and their differences (`src/config_snapshot/model.rs`,
    `src/config_snapshot/diff.rs`). */
module ConfigDiff {
  import opened Text
  import opened Wrappers

  // ----- Snapshots -----

  datatype ContractCompute = ContractCompute(
    ledgerMaxInstructions: int, txMaxInstructions: int, feeRatePerInstructionsIncrement: int, txMemoryLimit: int)

  datatype ContractLedgerCost = ContractLedgerCost(
    ledgerMaxDiskReadEntries: int, ledgerMaxDiskReadBytes: int,
    ledgerMaxWriteLedgerEntries: int, ledgerMaxWriteBytes: int,
    txMaxDiskReadEntries: int, txMaxDiskReadBytes: int,
    txMaxWriteLedgerEntries: int, txMaxWriteBytes: int,
    feeDiskReadLedgerEntry: int, feeWriteLedgerEntry: int, feeDiskRead1Kb: int,
    sorobanStateTargetSizeBytes: int, rentFee1KbSorobanStateSizeLow: int, rentFee1KbSorobanStateSizeHigh: int,
    sorobanStateRentFeeGrowthFactor: int)

  datatype ContractHistoricalData = ContractHistoricalData(feeHistorical1Kb: int)

  datatype ContractEvents = ContractEvents(txMaxContractEventsSizeBytes: int, feeContractEvents1Kb: int)

  datatype ContractBandwidth = ContractBandwidth(ledgerMaxTxsSizeBytes: int, txMaxSizeBytes: int, feeTxSize1Kb: int)

  datatype StateArchival = StateArchival(
    maxEntryTtl: int, minTemporaryTtl: int, minPersistentTtl: int,
    persistentRentRateDenominator: int, tempRentRateDenominator: int, maxEntriesToArchive: int,
    liveSorobanStateSizeWindowSampleSize: int, liveSorobanStateSizeWindowSamplePeriod: int,
    evictionScanSize: int, startingEvictionScanLevel: int)

  datatype ConfigSnapshot = ConfigSnapshot(
    network: string,
    timestamp: string,
    ledger: nat,
    protocolVersion: Option<nat>,
    contractCompute: Option<ContractCompute>,
    contractLedgerCost: Option<ContractLedgerCost>,
    contractHistoricalData: Option<ContractHistoricalData>,
    contractEvents: Option<ContractEvents>,
    contractBandwidth: Option<ContractBandwidth>,
    stateArchival: Option<StateArchival>)

  /** The comparison `config snapshot --skip-unchanged` makes before it saves. */
  predicate SameConfiguration(a: ConfigSnapshot, b: ConfigSnapshot) {
    && a.network == b.network
    && a.protocolVersion == b.protocolVersion
    && a.contractCompute == b.contractCompute
    && a.contractLedgerCost == b.contractLedgerCost
    && a.contractHistoricalData == b.contractHistoricalData
    && a.contractEvents == b.contractEvents
    && a.contractBandwidth == b.contractBandwidth
    && a.stateArchival == b.stateArchival
  }

  // ----- The compared fields -----

  datatype Setting = Compute | LedgerCost | HistoricalData | Events | Bandwidth | Archival

  const SETTINGS := [Compute, LedgerCost, HistoricalData, Events, Bandwidth, Archival]

  function SettingText(s: Setting): string {
    match s
    case Compute => "contract_compute"
    case LedgerCost => "contract_ledger_cost"
    case HistoricalData => "contract_historical_data"
    case Events => "contract_events"
    case Bandwidth => "contract_bandwidth"
    case Archival => "state_archival"
  }

  /** The names of a setting's compared fields, in the order they are compared. */
  function FieldNames(s: Setting): seq<string> {
    match s
    case Compute => [
      "ledger_max_instructions", "tx_max_instructions", "fee_rate_per_instructions_increment", "tx_memory_limit"]
    case LedgerCost => [
      "ledger_max_disk_read_entries", "ledger_max_disk_read_bytes", "ledger_max_write_ledger_entries",
      "ledger_max_write_bytes", "fee_disk_read_ledger_entry", "fee_write_ledger_entry", "fee_disk_read1_kb",
      "soroban_state_target_size_bytes", "rent_fee1_kb_soroban_state_size_low",
      "rent_fee1_kb_soroban_state_size_high", "soroban_state_rent_fee_growth_factor"]
    case HistoricalData => ["fee_historical1_kb"]
    case Events => ["tx_max_contract_events_size_bytes", "fee_contract_events1_kb"]
    case Bandwidth => ["ledger_max_txs_size_bytes", "tx_max_size_bytes", "fee_tx_size1_kb"]
    case Archival => [
      "max_entry_ttl", "min_temporary_ttl", "min_persistent_ttl", "persistent_rent_rate_denominator",
      "temp_rent_rate_denominator", "max_entries_to_archive", "live_soroban_state_size_window_sample_size",
      "live_soroban_state_size_window_sample_period", "eviction_scan_size", "starting_eviction_scan_level"]
  }

  /** Which of them are pricing fields, by position. */
  predicate IsPricing(s: Setting, index: nat) {
    match s
    case Compute => index == 2
    case LedgerCost => index in {4, 5, 6, 8, 9}
    case HistoricalData => index == 0
    case Events => index == 1
    case Bandwidth => index == 2
    case Archival => index in {3, 4}
  }

  /** The values of a setting's compared fields, if the setting is there. Four of the fifteen
      ledger-cost fields are not among them. */
  function Compared(c: ConfigSnapshot, s: Setting): (values: Option<seq<int>>)
    ensures values.Some? ==> |values.value| == |FieldNames(s)|
  {
    match s
    case Compute => (
      match c.contractCompute
      case None => None
      case Some(v) => Some([
        v.ledgerMaxInstructions, v.txMaxInstructions, v.feeRatePerInstructionsIncrement, v.txMemoryLimit]))
    case LedgerCost => (
      match c.contractLedgerCost
      case None => None
      case Some(v) => Some([
        v.ledgerMaxDiskReadEntries, v.ledgerMaxDiskReadBytes, v.ledgerMaxWriteLedgerEntries, v.ledgerMaxWriteBytes,
        v.feeDiskReadLedgerEntry, v.feeWriteLedgerEntry, v.feeDiskRead1Kb, v.sorobanStateTargetSizeBytes,
        v.rentFee1KbSorobanStateSizeLow, v.rentFee1KbSorobanStateSizeHigh, v.sorobanStateRentFeeGrowthFactor]))
    case HistoricalData => (
      match c.contractHistoricalData
      case None => None
      case Some(v) => Some([v.feeHistorical1Kb]))
    case Events => (
      match c.contractEvents
      case None => None
      case Some(v) => Some([v.txMaxContractEventsSizeBytes, v.feeContractEvents1Kb]))
    case Bandwidth => (
      match c.contractBandwidth
      case None => None
      case Some(v) => Some([v.ledgerMaxTxsSizeBytes, v.txMaxSizeBytes, v.feeTxSize1Kb]))
    case Archival => (
      match c.stateArchival
      case None => None
      case Some(v) => Some([
        v.maxEntryTtl, v.minTemporaryTtl, v.minPersistentTtl, v.persistentRentRateDenominator,
        v.tempRentRateDenominator, v.maxEntriesToArchive, v.liveSorobanStateSizeWindowSampleSize,
        v.liveSorobanStateSizeWindowSamplePeriod, v.evictionScanSize, v.startingEvictionScanLevel]))
  }

  /** Name and value of a setting's `i`-th compared field, and whether a change of it is a pricing change. */
  function Named(c: ConfigSnapshot, s: Setting, i: nat): (string, int, bool)
    requires Compared(c, s).Some? && i < |FieldNames(s)|
  {
    (FieldNames(s)[i], Compared(c, s).value[i], IsPricing(s, i))
  }

  /** The compared values of `contractCompute`, each by its own name; the fees and rates are pricing. */
  lemma ComputeByName(c: ConfigSnapshot)
    ensures Compared(c, Compute).Some? <==> c.contractCompute.Some?
    ensures |FieldNames(Compute)| == 4
    ensures c.contractCompute.Some? ==>
              var v := c.contractCompute.value;
              && Named(c, Compute, 0) == ("ledger_max_instructions", v.ledgerMaxInstructions, false)
              && Named(c, Compute, 1) == ("tx_max_instructions", v.txMaxInstructions, false)
              && Named(c, Compute, 2)
                 == ("fee_rate_per_instructions_increment", v.feeRatePerInstructionsIncrement, true)
              && Named(c, Compute, 3) == ("tx_memory_limit", v.txMemoryLimit, false)
  {
  }

  /** The compared values of `contractLedgerCost`, each by its own name; the fees and rates are pricing. */
  lemma LedgerCostByName(c: ConfigSnapshot)
    ensures Compared(c, LedgerCost).Some? <==> c.contractLedgerCost.Some?
    ensures |FieldNames(LedgerCost)| == 11
    ensures c.contractLedgerCost.Some? ==>
              var v := c.contractLedgerCost.value;
              && Named(c, LedgerCost, 0) == ("ledger_max_disk_read_entries", v.ledgerMaxDiskReadEntries, false)
              && Named(c, LedgerCost, 1) == ("ledger_max_disk_read_bytes", v.ledgerMaxDiskReadBytes, false)
              && Named(c, LedgerCost, 2) == ("ledger_max_write_ledger_entries", v.ledgerMaxWriteLedgerEntries, false)
              && Named(c, LedgerCost, 3) == ("ledger_max_write_bytes", v.ledgerMaxWriteBytes, false)
              && Named(c, LedgerCost, 4) == ("fee_disk_read_ledger_entry", v.feeDiskReadLedgerEntry, true)
              && Named(c, LedgerCost, 5) == ("fee_write_ledger_entry", v.feeWriteLedgerEntry, true)
              && Named(c, LedgerCost, 6) == ("fee_disk_read1_kb", v.feeDiskRead1Kb, true)
              && Named(c, LedgerCost, 7) == ("soroban_state_target_size_bytes", v.sorobanStateTargetSizeBytes, false)
              && Named(c, LedgerCost, 8)
                 == ("rent_fee1_kb_soroban_state_size_low", v.rentFee1KbSorobanStateSizeLow, true)
              && Named(c, LedgerCost, 9)
                 == ("rent_fee1_kb_soroban_state_size_high", v.rentFee1KbSorobanStateSizeHigh, true)
              && Named(c, LedgerCost, 10)
                 == ("soroban_state_rent_fee_growth_factor", v.sorobanStateRentFeeGrowthFactor, false)
  {
  }

  /** The compared values of `contractHistoricalData`, each by its own name; the fees and rates are pricing. */
  lemma HistoricalDataByName(c: ConfigSnapshot)
    ensures Compared(c, HistoricalData).Some? <==> c.contractHistoricalData.Some?
    ensures |FieldNames(HistoricalData)| == 1
    ensures c.contractHistoricalData.Some? ==>
              var v := c.contractHistoricalData.value;
              && Named(c, HistoricalData, 0) == ("fee_historical1_kb", v.feeHistorical1Kb, true)
  {
  }

  /** The compared values of `contractEvents`, each by its own name; the fees and rates are pricing. */
  lemma EventsByName(c: ConfigSnapshot)
    ensures Compared(c, Events).Some? <==> c.contractEvents.Some?
    ensures |FieldNames(Events)| == 2
    ensures c.contractEvents.Some? ==>
              var v := c.contractEvents.value;
              && Named(c, Events, 0) == ("tx_max_contract_events_size_bytes", v.txMaxContractEventsSizeBytes, false)
              && Named(c, Events, 1) == ("fee_contract_events1_kb", v.feeContractEvents1Kb, true)
  {
  }

  /** The compared values of `contractBandwidth`, each by its own name; the fees and rates are pricing. */
  lemma BandwidthByName(c: ConfigSnapshot)
    ensures Compared(c, Bandwidth).Some? <==> c.contractBandwidth.Some?
    ensures |FieldNames(Bandwidth)| == 3
    ensures c.contractBandwidth.Some? ==>
              var v := c.contractBandwidth.value;
              && Named(c, Bandwidth, 0) == ("ledger_max_txs_size_bytes", v.ledgerMaxTxsSizeBytes, false)
              && Named(c, Bandwidth, 1) == ("tx_max_size_bytes", v.txMaxSizeBytes, false)
              && Named(c, Bandwidth, 2) == ("fee_tx_size1_kb", v.feeTxSize1Kb, true)
  {
  }

  /** The compared values of `stateArchival`, each by its own name; the fees and rates are pricing. */
  lemma ArchivalByName(c: ConfigSnapshot)
    ensures Compared(c, Archival).Some? <==> c.stateArchival.Some?
    ensures |FieldNames(Archival)| == 10
    ensures c.stateArchival.Some? ==>
              var v := c.stateArchival.value;
              && Named(c, Archival, 0) == ("max_entry_ttl", v.maxEntryTtl, false)
              && Named(c, Archival, 1) == ("min_temporary_ttl", v.minTemporaryTtl, false)
              && Named(c, Archival, 2) == ("min_persistent_ttl", v.minPersistentTtl, false)
              && Named(c, Archival, 3) == ("persistent_rent_rate_denominator", v.persistentRentRateDenominator, true)
              && Named(c, Archival, 4) == ("temp_rent_rate_denominator", v.tempRentRateDenominator, true)
              && Named(c, Archival, 5) == ("max_entries_to_archive", v.maxEntriesToArchive, false)
              && Named(c, Archival, 6)
                 == ("live_soroban_state_size_window_sample_size", v.liveSorobanStateSizeWindowSampleSize, false)
              && Named(c, Archival, 7)
                 == ("live_soroban_state_size_window_sample_period", v.liveSorobanStateSizeWindowSamplePeriod, false)
              && Named(c, Archival, 8) == ("eviction_scan_size", v.evictionScanSize, false)
              && Named(c, Archival, 9) == ("starting_eviction_scan_level", v.startingEvictionScanLevel, false)
  {
  }

  // ----- Differences -----

  /** A whole setting, or one of its compared fields. */
  datatype Path = Whole(setting: Setting) | Field(setting: Setting, index: nat)

  function PathText(p: Path): string {
    match p
    case Whole(s) => SettingText(s)
    case Field(s, index) => SettingText(s) + "." + if index < |FieldNames(s)| then FieldNames(s)[index] else ""
  }

  datatype ChangeKind = ValueChanged | Added | Removed

  datatype FieldDiff = FieldDiff(path: Path, oldValue: string, newValue: string, isPricing: bool, kind: ChangeKind)

  function ValueDiff(s: Setting, i: nat, earlier: int, later: int): FieldDiff {
    FieldDiff(Field(s, i), IntText(earlier), IntText(later), IsPricing(s, i), ValueChanged)
  }

  function PresenceDiff(s: Setting, added: bool): FieldDiff {
    if added then FieldDiff(Whole(s), "(missing)", "(present)", true, Added)
    else FieldDiff(Whole(s), "(present)", "(missing)", true, Removed)
  }

  /** The fields from `i` on whose values differ. */
  function ValueChanges(s: Setting, a: seq<int>, b: seq<int>, i: nat): seq<FieldDiff>
    requires |a| == |b|
    decreases |a| - i
  {
    if i >= |a| then []
    else if a[i] != b[i] then [ValueDiff(s, i, a[i], b[i])] + ValueChanges(s, a, b, i + 1)
    else ValueChanges(s, a, b, i + 1)
  }

  function SettingChanges(s: Setting, earlier: ConfigSnapshot, later: ConfigSnapshot): seq<FieldDiff> {
    match (Compared(earlier, s), Compared(later, s))
    case (Some(a), Some(b)) => ValueChanges(s, a, b, 0)
    case (None, Some(_)) => [PresenceDiff(s, true)]
    case (Some(_), None) => [PresenceDiff(s, false)]
    case (None, None) => []
  }

  function ChangesFrom(settings: seq<Setting>, earlier: ConfigSnapshot, later: ConfigSnapshot): seq<FieldDiff> {
    if settings == [] then []
    else SettingChanges(settings[0], earlier, later) + ChangesFrom(settings[1..], earlier, later)
  }

  function Changes(earlier: ConfigSnapshot, later: ConfigSnapshot): seq<FieldDiff> {
    ChangesFrom(SETTINGS, earlier, later)
  }

  /** Compares setting by setting and field by field, pushing what differs. */
  method DiffSnapshots(earlier: ConfigSnapshot, later: ConfigSnapshot) returns (diffs: seq<FieldDiff>)
    ensures diffs == Changes(earlier, later)
  {
    hide SettingChanges;
    diffs := [];
    for k := 0 to |SETTINGS|
      invariant diffs + ChangesFrom(SETTINGS[k..], earlier, later) == Changes(earlier, later)
    {
      ghost var before := diffs;
      diffs := PushSetting(diffs, SETTINGS[k], earlier, later);
      assert SETTINGS[k..][1..] == SETTINGS[k + 1..];
      assert diffs + ChangesFrom(SETTINGS[k + 1..], earlier, later)
          == before + (SettingChanges(SETTINGS[k], earlier, later) + ChangesFrom(SETTINGS[k + 1..], earlier, later));
    }
    assert diffs + [] == diffs;
  }

  method PushSetting(diffs: seq<FieldDiff>, s: Setting, earlier: ConfigSnapshot, later: ConfigSnapshot)
    returns (pushed: seq<FieldDiff>)
    ensures pushed == diffs + SettingChanges(s, earlier, later)
  {
    hide Compared, FieldNames, ValueChanges, PresenceDiff;
    pushed := diffs;
    match (Compared(earlier, s), Compared(later, s)) {
      case (Some(a), Some(b)) => pushed := PushValues(diffs, s, a, b);
      case (None, Some(_)) => pushed := pushed + [PresenceDiff(s, true)];
      case (Some(_), None) => pushed := pushed + [PresenceDiff(s, false)];
      case (None, None) => assert diffs + [] == diffs;
    }
  }

  method PushValues(diffs: seq<FieldDiff>, s: Setting, a: seq<int>, b: seq<int>) returns (pushed: seq<FieldDiff>)
    requires |a| == |b|
    ensures pushed == diffs + ValueChanges(s, a, b, 0)
  {
    hide ValueDiff;
    pushed := diffs;
    for i := 0 to |a|
      invariant pushed + ValueChanges(s, a, b, i) == diffs + ValueChanges(s, a, b, 0)
    {
      ghost var before := pushed;
      if a[i] != b[i] {
        pushed := pushed + [ValueDiff(s, i, a[i], b[i])];
      }
      assert before + ValueChanges(s, a, b, i) == pushed + ValueChanges(s, a, b, i + 1);
    }
    assert pushed + [] == pushed;
  }

  // ----- What a difference reports -----

  /** Where a setting comes in the comparison. */
  function Position(s: Setting): nat {
    match s
    case Compute => 0
    case LedgerCost => 1
    case HistoricalData => 2
    case Events => 3
    case Bandwidth => 4
    case Archival => 5
  }

  lemma EverySetting(s: Setting)
    ensures Position(s) < |SETTINGS| && SETTINGS[Position(s)] == s && s in SETTINGS
    ensures forall i :: 0 <= i < |SETTINGS| ==> Position(SETTINGS[i]) == i
  {
    assert SETTINGS[0] == Compute && SETTINGS[1] == LedgerCost && SETTINGS[2] == HistoricalData;
    assert SETTINGS[3] == Events && SETTINGS[4] == Bandwidth && SETTINGS[5] == Archival;
  }

  /** Setting by setting, and within one field by field. */
  predicate Precedes(a: FieldDiff, b: FieldDiff) {
    || Position(a.path.setting) < Position(b.path.setting)
    || (a.path.Field? && b.path.Field? && a.path.setting == b.path.setting && a.path.index < b.path.index)
  }

  predicate InOrder(diffs: seq<FieldDiff>) {
    forall k, m :: 0 <= k < m < |diffs| ==> Precedes(diffs[k], diffs[m])
  }

  /** A compared field whose value differs, with both values, or a setting on one side only. */
  predicate IsChange(d: FieldDiff, earlier: ConfigSnapshot, later: ConfigSnapshot) {
    var s := d.path.setting;
    match (Compared(earlier, s), Compared(later, s))
    case (Some(a), Some(b)) =>
      && d.path.Field? && d.path.index < |a|
      && a[d.path.index] != b[d.path.index]
      && d.oldValue == IntText(a[d.path.index]) && d.newValue == IntText(b[d.path.index])
      && d.isPricing == IsPricing(s, d.path.index) && d.kind == ValueChanged
    case (None, Some(_)) =>
      d.path.Whole? && d.oldValue == "(missing)" && d.newValue == "(present)" && d.isPricing && d.kind == Added
    case (Some(_), None) =>
      d.path.Whole? && d.oldValue == "(present)" && d.newValue == "(missing)" && d.isPricing && d.kind == Removed
    case (None, None) => false
  }

  lemma {:induction false} ValueChangesAre(s: Setting, a: seq<int>, b: seq<int>, i: nat, d: FieldDiff)
    requires |a| == |b|
    ensures d in ValueChanges(s, a, b, i) <==>
              && d.path.Field? && i <= d.path.index < |a|
              && a[d.path.index] != b[d.path.index]
              && d == ValueDiff(s, d.path.index, a[d.path.index], b[d.path.index])
    decreases |a| - i
  {
    hide IntText, IsPricing;
    if i < |a| {
      ValueChangesAre(s, a, b, i + 1, d);
    }
  }

  lemma {:induction false} ValueChangesInOrder(s: Setting, a: seq<int>, b: seq<int>, i: nat)
    requires |a| == |b|
    ensures InOrder(ValueChanges(s, a, b, i))
    ensures forall k :: 0 <= k < |ValueChanges(s, a, b, i)| ==>
              var p := ValueChanges(s, a, b, i)[k].path; p.Field? && p.setting == s && i <= p.index < |a|
    decreases |a| - i
  {
    hide IntText, IsPricing, Position;
    if i < |a| {
      ValueChangesInOrder(s, a, b, i + 1);
      var rest := ValueChanges(s, a, b, i + 1);
      assert a[i] != b[i] ==> ValueChanges(s, a, b, i) == [ValueDiff(s, i, a[i], b[i])] + rest;
    }
  }

  lemma SettingChangesAre(s: Setting, earlier: ConfigSnapshot, later: ConfigSnapshot, d: FieldDiff)
    ensures d in SettingChanges(s, earlier, later) <==> d.path.setting == s && IsChange(d, earlier, later)
  {
    hide Compared, FieldNames, ValueChanges;
    match (Compared(earlier, s), Compared(later, s))
    case (Some(a), Some(b)) => ValueChangesAre(s, a, b, 0, d);
    case _ =>
  }

  lemma SettingChangesInOrder(s: Setting, earlier: ConfigSnapshot, later: ConfigSnapshot)
    ensures InOrder(SettingChanges(s, earlier, later))
    ensures forall k :: 0 <= k < |SettingChanges(s, earlier, later)| ==>
              SettingChanges(s, earlier, later)[k].path.setting == s
  {
    hide Compared, FieldNames, ValueChanges;
    match (Compared(earlier, s), Compared(later, s))
    case (Some(a), Some(b)) => ValueChangesInOrder(s, a, b, 0);
    case _ =>
  }

  lemma {:induction false} ChangesFromAre(from: nat, earlier: ConfigSnapshot, later: ConfigSnapshot, d: FieldDiff)
    requires from <= |SETTINGS|
    ensures d in ChangesFrom(SETTINGS[from..], earlier, later) <==>
              Position(d.path.setting) >= from && IsChange(d, earlier, later)
    decreases |SETTINGS| - from
  {
    hide SettingChanges, IsChange, Position;
    EverySetting(d.path.setting);
    if from < |SETTINGS| {
      SettingChangesAre(SETTINGS[from], earlier, later, d);
      ChangesFromAre(from + 1, earlier, later, d);
      assert SETTINGS[from..][1..] == SETTINGS[from + 1..];
      assert Position(d.path.setting) == from <==> d.path.setting == SETTINGS[from];
    }
  }

  lemma {:induction false} ChangesFromInOrder(from: nat, earlier: ConfigSnapshot, later: ConfigSnapshot)
    requires from <= |SETTINGS|
    ensures InOrder(ChangesFrom(SETTINGS[from..], earlier, later))
    ensures forall k :: 0 <= k < |ChangesFrom(SETTINGS[from..], earlier, later)| ==>
              Position(ChangesFrom(SETTINGS[from..], earlier, later)[k].path.setting) >= from
    decreases |SETTINGS| - from
  {
    hide SettingChanges, Position;
    if from < |SETTINGS| {
      EverySetting(SETTINGS[from]);
      SettingChangesInOrder(SETTINGS[from], earlier, later);
      ChangesFromInOrder(from + 1, earlier, later);
      assert SETTINGS[from..][1..] == SETTINGS[from + 1..];
    }
  }

  /** The difference reports every compared field whose value differs and every setting on one side
      only, with both values, nothing else, and each once, in the order of comparison. */
  lemma ChangesAreExact(earlier: ConfigSnapshot, later: ConfigSnapshot)
    ensures forall d :: d in Changes(earlier, later) <==> IsChange(d, earlier, later)
    ensures InOrder(Changes(earlier, later))
    ensures forall k, m :: 0 <= k < m < |Changes(earlier, later)| ==>
              Changes(earlier, later)[k].path != Changes(earlier, later)[m].path
  {
    hide ChangesFrom, IsChange, Position;
    assert SETTINGS[0..] == SETTINGS;
    ChangesFromInOrder(0, earlier, later);
    forall d
      ensures d in Changes(earlier, later) <==> IsChange(d, earlier, later)
    {
      ChangesFromAre(0, earlier, later, d);
    }
    var diffs := Changes(earlier, later);
    forall k, m | 0 <= k < m < |diffs|
      ensures diffs[k].path != diffs[m].path
    {
      assert Precedes(diffs[k], diffs[m]);
    }
  }

  // ----- What an empty difference means -----

  lemma {:induction false} NoValueChanges(s: Setting, a: seq<int>, b: seq<int>, i: nat)
    requires |a| == |b|
    ensures ValueChanges(s, a, b, i) == [] <==> forall j :: i <= j < |a| ==> a[j] == b[j]
    decreases |a| - i
  {
    if i < |a| {
      NoValueChanges(s, a, b, i + 1);
    }
  }

  lemma NoSettingChanges(s: Setting, earlier: ConfigSnapshot, later: ConfigSnapshot)
    ensures SettingChanges(s, earlier, later) == [] <==> Compared(earlier, s) == Compared(later, s)
  {
    hide Compared, FieldNames, ValueChanges;
    match (Compared(earlier, s), Compared(later, s))
    case (Some(a), Some(b)) =>
      NoValueChanges(s, a, b, 0);
      assert (forall j :: 0 <= j < |a| ==> a[j] == b[j]) <==> a == b;
    case _ =>
  }

  lemma {:induction false} NoChangesFrom(settings: seq<Setting>, earlier: ConfigSnapshot, later: ConfigSnapshot)
    ensures ChangesFrom(settings, earlier, later) == [] <==>
              forall s :: s in settings ==> Compared(earlier, s) == Compared(later, s)
  {
    hide Compared, SettingChanges, FieldNames;
    if settings == [] {
    } else {
      NoSettingChanges(settings[0], earlier, later);
      NoChangesFrom(settings[1..], earlier, later);
      assert settings == [settings[0]] + settings[1..];
    }
  }

  /** The four ledger-cost fields nothing compares. */
  function Uncompared(c: ConfigSnapshot): Option<(int, int, int, int)> {
    match c.contractLedgerCost
    case None => None
    case Some(v) => Some((v.txMaxDiskReadEntries, v.txMaxDiskReadBytes, v.txMaxWriteLedgerEntries, v.txMaxWriteBytes))
  }

  /** Two snapshots record the same configuration exactly when they differ in nothing the diff
      reports, nor in network, protocol version, or the four ledger-cost fields the diff skips. */
  lemma SameConfigurationIff(a: ConfigSnapshot, b: ConfigSnapshot)
    ensures SameConfiguration(a, b) <==>
              && Changes(a, b) == []
              && a.network == b.network
              && a.protocolVersion == b.protocolVersion
              && Uncompared(a) == Uncompared(b)
  {
    hide ChangesFrom, Compared, Uncompared;
    NoChangesFrom(SETTINGS, a, b);
    if SameConfiguration(a, b) {
      SameEverywhere(a, b);
    }
    assert Compute in SETTINGS && LedgerCost in SETTINGS && HistoricalData in SETTINGS;
    assert Events in SETTINGS && Bandwidth in SETTINGS && Archival in SETTINGS;
    if Changes(a, b) == [] {
      SameCompared(a, b);
    }
  }

  /** Two snapshots that differ in one of the four: the diff says nothing changed, and still they
      are not the same configuration. */
  lemma UncomparedFieldIsMissed(a: ConfigSnapshot, b: ConfigSnapshot)
    requires a.contractLedgerCost.Some?
    requires var cost := a.contractLedgerCost.value;
             b == a.(contractLedgerCost := Some(cost.(txMaxWriteBytes := cost.txMaxWriteBytes + 1)))
    ensures Changes(a, b) == [] && !SameConfiguration(a, b)
  {
    hide ChangesFrom, FieldNames;
    forall s
      ensures Compared(a, s) == Compared(b, s)
    {
      match s
      case LedgerCost =>
      case _ =>
    }
    NoChangesFrom(SETTINGS, a, b);
  }

  lemma SameEverywhere(a: ConfigSnapshot, b: ConfigSnapshot)
    requires SameConfiguration(a, b)
    ensures Uncompared(a) == Uncompared(b) && forall s :: Compared(a, s) == Compared(b, s)
  {
    hide FieldNames;
    forall s
      ensures Compared(a, s) == Compared(b, s)
    {
      match s
      case Compute =>
      case LedgerCost =>
      case _ =>
    }
  }

  /** A setting's compared values determine it, the ledger cost together with the skipped four. */
  lemma SameCompared(a: ConfigSnapshot, b: ConfigSnapshot)
    ensures Compared(a, Compute) == Compared(b, Compute) ==> a.contractCompute == b.contractCompute
    ensures Compared(a, LedgerCost) == Compared(b, LedgerCost) && Uncompared(a) == Uncompared(b) ==>
              a.contractLedgerCost == b.contractLedgerCost
    ensures Compared(a, HistoricalData) == Compared(b, HistoricalData) ==>
              a.contractHistoricalData == b.contractHistoricalData
    ensures Compared(a, Events) == Compared(b, Events) ==> a.contractEvents == b.contractEvents
    ensures Compared(a, Bandwidth) == Compared(b, Bandwidth) ==> a.contractBandwidth == b.contractBandwidth
    ensures Compared(a, Archival) == Compared(b, Archival) ==> a.stateArchival == b.stateArchival
  {
    SameLedgerCost(a, b);
    SameArchival(a, b);
    SameSmall(a, b);
  }

  lemma SameSmall(a: ConfigSnapshot, b: ConfigSnapshot)
    ensures Compared(a, Compute) == Compared(b, Compute) ==> a.contractCompute == b.contractCompute
    ensures Compared(a, HistoricalData) == Compared(b, HistoricalData) ==>
              a.contractHistoricalData == b.contractHistoricalData
    ensures Compared(a, Events) == Compared(b, Events) ==> a.contractEvents == b.contractEvents
    ensures Compared(a, Bandwidth) == Compared(b, Bandwidth) ==> a.contractBandwidth == b.contractBandwidth
  {
    var x, y := Compared(a, Compute), Compared(b, Compute);
    if x == y && x.Some? {
      assert forall i :: 0 <= i < 4 ==> x.value[i] == y.value[i];
    }
    var e, f := Compared(a, Bandwidth), Compared(b, Bandwidth);
    if e == f && e.Some? {
      assert forall i :: 0 <= i < 3 ==> e.value[i] == f.value[i];
    }
  }

  lemma SameLedgerCost(a: ConfigSnapshot, b: ConfigSnapshot)
    ensures Compared(a, LedgerCost) == Compared(b, LedgerCost) && Uncompared(a) == Uncompared(b) ==>
              a.contractLedgerCost == b.contractLedgerCost
  {
    var x, y := Compared(a, LedgerCost), Compared(b, LedgerCost);
    if x == y && x.Some? {
      assert forall i :: 0 <= i < 11 ==> x.value[i] == y.value[i];
    }
  }

  lemma SameArchival(a: ConfigSnapshot, b: ConfigSnapshot)
    ensures Compared(a, Archival) == Compared(b, Archival) ==> a.stateArchival == b.stateArchival
  {
    var x, y := Compared(a, Archival), Compared(b, Archival);
    if x == y && x.Some? {
      assert forall i :: 0 <= i < 10 ==> x.value[i] == y.value[i];
    }
  }
}
