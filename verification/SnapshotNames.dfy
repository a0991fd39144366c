/** Snapshot file names (`src/config_snapshot/store.rs`): `{network}-{timestamp}.json`, with the
    timestamp's colons written as hyphens. */
module SnapshotNames {
  import opened Text
  import opened Wrappers

  // ----- Naming -----

  function Replace(s: string, from: char, to: char): string {
    if s == "" then "" else [if s[0] == from then to else s[0]] + Replace(s[1..], from, to)
  }

  function FileName(network: string, timestamp: string): string {
    network + "-" + Replace(timestamp, ':', '-') + ".json"
  }

  // ----- Reading a name back -----

  function StripPrefix(s: string, prefix: string): Option<string> {
    if prefix <= s then Some(s[|prefix|..]) else None
  }

  function StripSuffix(s: string, suffix: string): Option<string> {
    if |suffix| <= |s| && s[|s| - |suffix|..] == suffix then Some(s[..|s| - |suffix|]) else None
  }

  /** Where the first `c` is, or the length. */
  function FirstIndex(s: string, c: char): (i: nat)
    ensures i <= |s|
    ensures i < |s| ==> s[i] == c
    ensures c !in s[..i]
  {
    if s == "" || s[0] == c then 0
    else
      var i := FirstIndex(s[1..], c);
      assert s[..i + 1] == [s[0]] + s[1..][..i];
      i + 1
  }

  /** Where the last sign is. */
  function LastSign(s: string): (i: Option<nat>)
    ensures i.Some? ==> i.value < |s| && (s[i.value] == '+' || s[i.value] == '-')
    ensures i.Some? ==> forall j :: i.value < j < |s| ==> s[j] != '+' && s[j] != '-'
    ensures i.None? ==> forall j :: 0 <= j < |s| ==> s[j] != '+' && s[j] != '-'
  {
    if s == "" then None
    else if s[|s| - 1] == '+' || s[|s| - 1] == '-' then Some(|s| - 1)
    else LastSign(s[..|s| - 1])
  }

  /** The clock and offset text rebuilt from the hyphen-separated pieces of the time part. */
  function ClockOf(parts: seq<string>): Option<string> {
    if |parts| == 3 then
      Some(parts[0] + ":" + parts[1] + ":" + parts[2])
    else if |parts| == 4 then
      // The offset sign is still attached to the seconds.
      match LastSign(parts[2])
      case None => None
      case Some(i) => Some(parts[0] + ":" + parts[1] + ":" + parts[2][..i] + parts[2][i..] + ":" + parts[3])
    else if |parts| == 5 then
      // A negative offset lost its sign to the separator.
      Some(parts[0] + ":" + parts[1] + ":" + parts[2] + "-" + parts[3] + ":" + parts[4])
    else None
  }

  function DecodeStem(stem: string): Option<string> {
    var t := FirstIndex(stem, 'T');
    if t == |stem| then None
    else
      match ClockOf(Split(stem[t + 1..], '-'))
      case None => None
      case Some(clock) => Some(stem[..t] + "T" + clock)
  }

  /** The timestamp a file name encodes; `instantOf` parses RFC 3339. */
  function TimestampFromFilename(network: string, filename: string, instantOf: string -> Option<int>): Option<string> {
    match StripPrefix(filename, network + "-")
    case None => None
    case Some(rest) =>
      match StripSuffix(rest, ".json")
      case None => None
      case Some(stem) =>
        match DecodeStem(stem)
        case None => None
        case Some(timestamp) => if instantOf(timestamp).Some? then Some(timestamp) else None
  }

  // ----- The timestamps that are named -----

  datatype Offset = Zulu | Ahead(hours: string, minutes: string) | Behind(hours: string, minutes: string)

  /** A timestamp of section 5.6 of RFC 3339; `second` includes any fraction. */
  datatype Stamp = Stamp(date: string, hour: string, minute: string, second: string, offset: Offset)

  predicate IsClockText(s: string) {
    forall i :: 0 <= i < |s| ==> IsDigit(s[i]) || s[i] == '.'
  }

  /** What stands before the `T`: a date, for one, has no `T` and no colon. */
  predicate IsDateText(s: string) {
    'T' !in s && ':' !in s
  }

  predicate IsShaped(t: Stamp) {
    && IsDateText(t.date) && IsClockText(t.hour) && IsClockText(t.minute) && IsClockText(t.second)
    && (!t.offset.Zulu? ==> IsClockText(t.offset.hours) && IsClockText(t.offset.minutes))
  }

  function OffsetText(o: Offset): string {
    match o
    case Zulu => "Z"
    case Ahead(hours, minutes) => "+" + hours + ":" + minutes
    case Behind(hours, minutes) => "-" + hours + ":" + minutes
  }

  function StampText(t: Stamp): string {
    t.date + "T" + (t.hour + ":" + t.minute + ":" + t.second + OffsetText(t.offset))
  }

  // ----- Naming then reading -----

  lemma {:induction false} ReplaceConcat(a: string, b: string, from: char, to: char)
    ensures Replace(a + b, from, to) == Replace(a, from, to) + Replace(b, from, to)
  {
    if a == "" {
      assert a + b == b;
    } else {
      ReplaceConcat(a[1..], b, from, to);
      assert (a + b)[1..] == a[1..] + b;
    }
  }

  lemma {:induction false} ReplaceAbsent(s: string, from: char, to: char)
    requires from !in s
    ensures Replace(s, from, to) == s
  {
    if s == "" {
    } else {
      ReplaceAbsent(s[1..], from, to);
      assert [s[0]] + s[1..] == s;
    }
  }

  lemma {:induction false} FirstIndexAt(a: string, c: char, b: string)
    requires c !in a
    ensures FirstIndex(a + [c] + b, c) == |a|
  {
    if a == "" {
    } else {
      assert (a + [c] + b)[1..] == a[1..] + [c] + b;
      FirstIndexAt(a[1..], c, b);
    }
  }

  lemma ClockTextIsInert(s: string)
    requires IsClockText(s)
    ensures ':' !in s && '-' !in s && '+' !in s
  {
  }

  /** The time part as the name spells it. */
  function EncodedTime(t: Stamp): string {
    t.hour + "-" + (t.minute + "-" + (t.second +
      match t.offset
      case Zulu => "Z"
      case Ahead(hours, minutes) => "+" + hours + "-" + minutes
      case Behind(hours, minutes) => "-" + hours + "-" + minutes))
  }

  lemma ReplaceColon(a: string, b: string)
    requires ':' !in a
    ensures Replace(a + ":" + b, ':', '-') == a + "-" + Replace(b, ':', '-')
  {
    ReplaceConcat(a + ":", b, ':', '-');
    ReplaceConcat(a, ":", ':', '-');
    ReplaceAbsent(a, ':', '-');
    assert Replace(":", ':', '-') == "-";
  }

  lemma EncodedOffset(o: Offset)
    requires !o.Zulu? ==> IsClockText(o.hours) && IsClockText(o.minutes)
    ensures Replace(OffsetText(o), ':', '-')
         == match o
            case Zulu => "Z"
            case Ahead(hours, minutes) => "+" + hours + "-" + minutes
            case Behind(hours, minutes) => "-" + hours + "-" + minutes
  {
    if o.Zulu? {
      ReplaceAbsent("Z", ':', '-');
    } else {
      ClockTextIsInert(o.hours);
      ClockTextIsInert(o.minutes);
      ReplaceColon((if o.Ahead? then "+" else "-") + o.hours, o.minutes);
      ReplaceAbsent(o.minutes, ':', '-');
    }
  }

  lemma EncodedStamp(t: Stamp)
    requires IsShaped(t)
    ensures Replace(StampText(t), ':', '-') == t.date + "T" + EncodedTime(t)
  {
    hide Replace, OffsetText, IsClockText;
    ClockTextIsInert(t.hour);
    ClockTextIsInert(t.minute);
    ClockTextIsInert(t.second);
    var tail := t.second + OffsetText(t.offset);
    ReplaceConcat(t.second, OffsetText(t.offset), ':', '-');
    ReplaceAbsent(t.second, ':', '-');
    EncodedOffset(t.offset);
    ReplaceColon(t.minute, tail);
    ReplaceColon(t.hour, t.minute + ":" + tail);
    Reassociate(t.hour + ":" + t.minute + ":", t.second, OffsetText(t.offset), "");
    Reassociate(t.hour + ":", t.minute, ":", tail);
    ReplaceConcat(t.date + "T", t.hour + ":" + (t.minute + ":" + tail), ':', '-');
    assert ':' !in t.date + "T";
    ReplaceAbsent(t.date + "T", ':', '-');
  }

  lemma SplitThree(a: string, b: string, rest: string)
    requires '-' !in a && '-' !in b
    ensures Split(a + "-" + (b + "-" + rest), '-') == [a, b] + Split(rest, '-')
  {
    SplitAt(a, '-', b + "-" + rest);
    SplitAt(b, '-', rest);
    assert a + ['-'] + (b + "-" + rest) == a + "-" + (b + "-" + rest);
    assert b + ['-'] + rest == b + "-" + rest;
  }

  lemma ZuluDecodes(hour: string, minute: string, second: string)
    requires '-' !in hour && '-' !in minute && '-' !in second
    ensures ClockOf(Split(hour + "-" + (minute + "-" + (second + "Z")), '-'))
         == Some(hour + ":" + minute + ":" + second + "Z")
  {
    hide Split;
    SplitThree(hour, minute, second + "Z");
    SplitPlain(second + "Z", '-');
    assert hour + ":" + minute + ":" + (second + "Z") == hour + ":" + minute + ":" + second + "Z";
  }

  lemma Reassociate(a: string, b: string, c: string, d: string)
    ensures a + (b + c + d) == a + b + c + d
    ensures a + (b + c) == a + b + c
  {
  }

  lemma AheadDecodes(hour: string, minute: string, second: string, hours: string, minutes: string)
    requires '-' !in hour && '-' !in minute && '-' !in minutes && IsClockText(second) && IsClockText(hours)
    ensures ClockOf(Split(hour + "-" + (minute + "-" + (second + ("+" + hours + "-" + minutes))), '-'))
         == Some(hour + ":" + minute + ":" + second + ("+" + hours + ":" + minutes))
  {
    hide Split, LastSign;
    var third := second + "+" + hours;
    var rest := second + ("+" + hours + "-" + minutes);
    SplitThree(hour, minute, rest);
    Reassociate(second, "+" + hours, "-", minutes);
    assert second + ("+" + hours) == third;
    SignAt(second, hours);
    SplitAt(third, '-', minutes);
    SplitPlain(minutes, '-');
    assert third[..|second|] == second && third[|second|..] == "+" + hours;
    Reassociate(hour + ":" + minute + ":" + second, "+" + hours, ":", minutes);
  }

  lemma FivePieces(a: string, b: string, c: string, d: string, e: string)
    ensures [a, b] + ([c, d] + [e]) == [a, b, c, d, e]
    ensures ClockOf([a, b, c, d, e]) == Some(a + ":" + b + ":" + c + "-" + d + ":" + e)
  {
  }

  lemma SignedTail(clock: string, sign: string, hours: string, colon: string, minutes: string)
    ensures clock + (sign + hours + colon + minutes) == clock + sign + hours + colon + minutes
  {
  }

  lemma BehindDecodes(hour: string, minute: string, second: string, hours: string, minutes: string)
    requires '-' !in hour && '-' !in minute && '-' !in second && '-' !in hours && '-' !in minutes
    ensures ClockOf(Split(hour + "-" + (minute + "-" + (second + ("-" + hours + "-" + minutes))), '-'))
         == Some(hour + ":" + minute + ":" + second + ("-" + hours + ":" + minutes))
  {
    hide Split, ClockOf;
    SplitThree(hour, minute, second + ("-" + hours + "-" + minutes));
    assert second + ("-" + hours + "-" + minutes) == second + "-" + (hours + "-" + minutes) by {
      SignedTail(second, "-", hours, "-", minutes);
      Reassociate(second + "-", hours, "-", minutes);
    }
    SplitThree(second, hours, minutes);
    SplitPlain(minutes, '-');
    FivePieces(hour, minute, second, hours, minutes);
    SignedTail(hour + ":" + minute + ":" + second, "-", hours, ":", minutes);
  }

  lemma TimeDecodes(t: Stamp)
    requires IsShaped(t)
    ensures ClockOf(Split(EncodedTime(t), '-')) == Some(t.hour + ":" + t.minute + ":" + t.second + OffsetText(t.offset))
  {
    hide Split, ClockOf;
    ClockTextIsInert(t.hour);
    ClockTextIsInert(t.minute);
    ClockTextIsInert(t.second);
    match t.offset
    case Zulu => ZuluDecodes(t.hour, t.minute, t.second);
    case Ahead(hours, minutes) =>
      ClockTextIsInert(minutes);
      AheadDecodes(t.hour, t.minute, t.second, hours, minutes);
    case Behind(hours, minutes) =>
      ClockTextIsInert(hours);
      ClockTextIsInert(minutes);
      BehindDecodes(t.hour, t.minute, t.second, hours, minutes);
  }

  lemma SignAt(second: string, hours: string)
    requires IsClockText(second) && IsClockText(hours)
    ensures '-' !in second + "+" + hours
    ensures LastSign(second + "+" + hours) == Some(|second|)
  {
    hide LastSign, IsClockText;
    ClockTextIsInert(second);
    ClockTextIsInert(hours);
    LastSignAt(second, '+', hours);
    assert second + ['+'] + hours == second + "+" + hours;
  }

  lemma {:induction false} LastSignAt(a: string, sign: char, b: string)
    requires sign == '+' || sign == '-'
    requires '+' !in b && '-' !in b
    ensures LastSign(a + [sign] + b) == Some(|a|)
  {
    var s := a + [sign] + b;
    if b == "" {
      assert s[|s| - 1] == sign;
    } else {
      LastSignAt(a, sign, b[..|b| - 1]);
      assert s[|s| - 1] == b[|b| - 1];
      assert s[..|s| - 1] == a + [sign] + b[..|b| - 1];
    }
  }

  lemma {:induction false} ReplaceIs(s: string, from: char, to: char)
    ensures |Replace(s, from, to)| == |s|
    ensures forall i :: 0 <= i < |s| ==> Replace(s, from, to)[i] == if s[i] == from then to else s[i]
  {
    if s == "" {
    } else {
      ReplaceIs(s[1..], from, to);
    }
  }

  /** A snapshot's file is called after its network, a hyphen, its timestamp with every colon as a hyphen,
      and `.json`. */
  lemma NameIs(network: string, timestamp: string) returns (encoded: string)
    ensures FileName(network, timestamp) == network + "-" + encoded + ".json"
    ensures |encoded| == |timestamp| && ':' !in encoded
    ensures forall i :: 0 <= i < |timestamp| && timestamp[i] != ':' ==> encoded[i] == timestamp[i]
    ensures forall i :: 0 <= i < |timestamp| && timestamp[i] == ':' ==> encoded[i] == '-'
  {
    encoded := Replace(timestamp, ':', '-');
    ReplaceIs(timestamp, ':', '-');
  }

  /** Whatever the network is called, a name reads back as exactly the timestamp it was made from. */
  lemma NameThenRead(network: string, t: Stamp, instantOf: string -> Option<int>)
    requires IsShaped(t)
    ensures TimestampFromFilename(network, FileName(network, StampText(t)), instantOf)
         == if instantOf(StampText(t)).Some? then Some(StampText(t)) else None
  {
    hide Replace, Split, ClockOf, FirstIndex, EncodedTime, OffsetText;
    var stem := t.date + "T" + EncodedTime(t);
    EncodedStamp(t);
    NameParts(network, stem);
    assert 'T' !in t.date;
    FirstIndexAt(t.date, 'T', EncodedTime(t));
    assert stem == t.date + ['T'] + EncodedTime(t);
    assert stem[|t.date| + 1..] == EncodedTime(t) && stem[..|t.date|] == t.date;
    TimeDecodes(t);
  }

  lemma NameParts(network: string, stem: string)
    ensures StripPrefix(network + "-" + stem + ".json", network + "-") == Some(stem + ".json")
    ensures StripSuffix(stem + ".json", ".json") == Some(stem)
  {
    assert network + "-" + stem + ".json" == (network + "-") + (stem + ".json");
  }

  /** So distinct timestamps of a network never share a file. */
  lemma NamesAreDistinct(network: string, a: Stamp, b: Stamp)
    requires IsShaped(a) && IsShaped(b)
    requires FileName(network, StampText(a)) == FileName(network, StampText(b))
    ensures StampText(a) == StampText(b)
  {
    var anything: string -> Option<int> := _ => Some(0);
    NameThenRead(network, a, anything);
    NameThenRead(network, b, anything);
  }

  /** A timestamp without an upper-case `T`, which RFC 3339 also allows, is never read back. */
  lemma LowerCaseIsLost(network: string, timestamp: string, instantOf: string -> Option<int>)
    requires 'T' !in timestamp
    ensures TimestampFromFilename(network, FileName(network, timestamp), instantOf) == None
  {
    hide Split, ClockOf;
    var stem := Replace(timestamp, ':', '-');
    NameParts(network, stem);
    ReplaceAddsOnly(timestamp, ':', '-', 'T');
    assert FirstIndex(stem, 'T') == |stem|;
  }

  lemma {:induction false} ReplaceAddsOnly(s: string, from: char, to: char, c: char)
    requires c !in s && c != to
    ensures c !in Replace(s, from, to)
  {
    if s == "" {
    } else {
      ReplaceAddsOnly(s[1..], from, to, c);
    }
  }
}
