/** The CSV report of `estimate-all` (`src/main.rs`), against a reader for section 2 of RFC 4180
    that also accepts bare LF line ends. */
module EstimateCsv {
  import opened Text
  import opened Wrappers

  // ----- Writing -----

  datatype Status = Done | Skipped | Failed

  datatype Fee = Fee(totalStroops: int, totalXlm: string)

  datatype EstimateAllResult = EstimateAllResult(
    fn: string,
    status: Status,
    cpuInstructions: Option<nat>,
    memoryBytes: Option<nat>,
    readEntries: Option<nat>,
    writeEntries: Option<nat>,
    readBytes: Option<nat>,
    writeBytes: Option<nat>,
    fee: Option<Fee>
  )

  const HEADER_FIELDS := [
    "Function", "Status", "CPU_Instructions", "RAM_Bytes", "Read_Entries", "Write_Entries",
    "Read_Bytes", "Write_Bytes", "Total_Fee_Stroops", "Total_Fee_XLM"
  ]

  predicate NeedsQuotes(c: char) {
    c == ',' || c == '"' || c == '\n' || c == '\r'
  }

  predicate IsPlain(s: string) {
    forall i :: 0 <= i < |s| ==> !NeedsQuotes(s[i])
  }

  /** Every double quote doubled. */
  function Doubled(s: string): string {
    if s == "" then "" else (if s[0] == '"' then "\"\"" else [s[0]]) + Doubled(s[1..])
  }

  function CsvEscape(value: string): string {
    if IsPlain(value) then value else "\"" + (Doubled(value) + "\"")
  }

  function Quotes(s: string): nat {
    if s == "" then 0 else (if s[0] == '"' then 1 else 0) + Quotes(s[1..])
  }

  lemma {:induction false} DoubledLength(s: string)
    ensures |Doubled(s)| == |s| + Quotes(s)
  {
    if s == "" {
    } else {
      DoubledLength(s[1..]);
    }
  }

  /** A value is quoted only if it has to be: one without a comma, a quote or a line break is written as it
      is, and any other grows by the two quotes around it and one for each quote in it. */
  lemma EscapedForm(value: string)
    ensures ',' !in value && '"' !in value && '\n' !in value && '\r' !in value ==> CsvEscape(value) == value
    ensures ',' in value || '"' in value || '\n' in value || '\r' in value ==>
              && |CsvEscape(value)| == |value| + 2 + Quotes(value)
              && CsvEscape(value)[0] == '"' && CsvEscape(value)[|CsvEscape(value)| - 1] == '"'
  {
    hide Doubled, Quotes;
    DoubledLength(value);
  }

  function StatusLabel(status: Status): string {
    match status
    case Done => "ok"
    case Skipped => "skipped"
    case Failed => "error"
  }

  function CountText(count: Option<nat>): string {
    Digits(if count.Some? then count.value else 0)
  }

  /** The ten columns of a result, before any quoting. */
  function Columns(r: EstimateAllResult): seq<string> {
    [
      r.fn, StatusLabel(r.status), CountText(r.cpuInstructions), CountText(r.memoryBytes),
      CountText(r.readEntries), CountText(r.writeEntries), CountText(r.readBytes), CountText(r.writeBytes),
      IntText(if r.fee.Some? then r.fee.value.totalStroops else 0),
      if r.fee.Some? then r.fee.value.totalXlm else ""
    ]
  }

  predicate ShowsCount(text: string, count: Option<nat>) {
    AllDigits(text) && match count case None => text == "0" case Some(n) => Value(text) == n
  }

  /** Every column holds what the header says above it: a function that was skipped or failed has zeros
      and no fee text. */
  lemma ColumnsAreAsHeaded(r: EstimateAllResult)
    ensures |Columns(r)| == |HEADER_FIELDS| == 10
    ensures HEADER_FIELDS[0] == "Function" && Columns(r)[0] == r.fn
    ensures HEADER_FIELDS[1] == "Status"
            && Columns(r)[1] == (match r.status case Done => "ok" case Skipped => "skipped" case Failed => "error")
    ensures HEADER_FIELDS[2] == "CPU_Instructions" && ShowsCount(Columns(r)[2], r.cpuInstructions)
    ensures HEADER_FIELDS[3] == "RAM_Bytes" && ShowsCount(Columns(r)[3], r.memoryBytes)
    ensures HEADER_FIELDS[4] == "Read_Entries" && ShowsCount(Columns(r)[4], r.readEntries)
    ensures HEADER_FIELDS[5] == "Write_Entries" && ShowsCount(Columns(r)[5], r.writeEntries)
    ensures HEADER_FIELDS[6] == "Read_Bytes" && ShowsCount(Columns(r)[6], r.readBytes)
    ensures HEADER_FIELDS[7] == "Write_Bytes" && ShowsCount(Columns(r)[7], r.writeBytes)
    ensures HEADER_FIELDS[8] == "Total_Fee_Stroops"
            && (r.fee.None? ==> Columns(r)[8] == "0")
            && (r.fee.Some? && r.fee.value.totalStroops >= 0 ==>
                  AllDigits(Columns(r)[8]) && Value(Columns(r)[8]) == r.fee.value.totalStroops)
            && (r.fee.Some? && r.fee.value.totalStroops < 0 ==>
                  exists digits :: Columns(r)[8] == "-" + digits && AllDigits(digits)
                                   && Value(digits) == -r.fee.value.totalStroops)
    ensures HEADER_FIELDS[9] == "Total_Fee_XLM"
            && Columns(r)[9] == (match r.fee case None => "" case Some(fee) => fee.totalXlm)
  {
    hide Value;
    CountsShown(r.cpuInstructions);
    CountsShown(r.memoryBytes);
    CountsShown(r.readEntries);
    CountsShown(r.writeEntries);
    CountsShown(r.readBytes);
    CountsShown(r.writeBytes);
    if r.fee.Some? {
      ValueOfDigits(if r.fee.value.totalStroops < 0 then -r.fee.value.totalStroops else r.fee.value.totalStroops);
    }
  }

  lemma CountsShown(count: Option<nat>)
    ensures ShowsCount(CountText(count), count)
  {
    hide Value;
    if count.Some? {
      ValueOfDigits(count.value);
    }
  }

  /** The cells as written: only the name and the XLM text are free text. */
  function Cells(r: EstimateAllResult): seq<string> {
    var c := Columns(r);
    [CsvEscape(c[0]), c[1], c[2], c[3], c[4], c[5], c[6], c[7], c[8], CsvEscape(c[9])]
  }

  /** Rust's `join(",")`. */
  function Join(fields: seq<string>): string {
    if fields == [] then ""
    else if |fields| == 1 then fields[0]
    else fields[0] + ("," + Join(fields[1..]))
  }

  function Lines(results: seq<EstimateAllResult>): string {
    if results == [] then "" else Join(Cells(results[0])) + ("\n" + Lines(results[1..]))
  }

  function Document(results: seq<EstimateAllResult>): string {
    Join(HEADER_FIELDS) + ("\n" + Lines(results))
  }

  /** The header line, and then one line per result: the cells with commas between them and one line
      feed. */
  lemma {:induction false} DocumentGrows(results: seq<EstimateAllResult>, r: EstimateAllResult)
    ensures Document([]) == Join(HEADER_FIELDS) + "\n"
    ensures Document(results + [r]) == Document(results) + Join(Cells(r)) + "\n"
  {
    hide Join, Cells;
    LinesGrow(results, r);
    assert Join(HEADER_FIELDS) + ("\n" + (Lines(results) + Join(Cells(r)) + "\n"))
        == Join(HEADER_FIELDS) + ("\n" + Lines(results)) + Join(Cells(r)) + "\n";
  }

  lemma {:induction false} LinesGrow(results: seq<EstimateAllResult>, r: EstimateAllResult)
    ensures Lines(results + [r]) == Lines(results) + Join(Cells(r)) + "\n"
  {
    hide Join, Cells;
    if results == [] {
      assert [r][1..] == [] && [] + [r] == [r];
      assert Join(Cells(r)) + ("\n" + "") == "" + Join(Cells(r)) + "\n";
    } else {
      LinesGrow(results[1..], r);
      assert (results + [r])[1..] == results[1..] + [r];
      var first := Join(Cells(results[0]));
      assert first + ("\n" + (Lines(results[1..]) + Join(Cells(r)) + "\n"))
          == first + ("\n" + Lines(results[1..])) + Join(Cells(r)) + "\n";
    }
  }

  method FormatEstimateAllCsv(results: seq<EstimateAllResult>) returns (out: string)
    ensures out == Document(results)
  {
    hide Join, Cells;
    out := Join(HEADER_FIELDS);
    out := out + "\n";
    for i := 0 to |results|
      invariant out + Lines(results[i..]) == Document(results)
    {
      ghost var before := out;
      out := out + Join(Cells(results[i]));
      out := out + "\n";
      assert results[i..][1..] == results[i + 1..];
      assert out + Lines(results[i + 1..]) == before + (Join(Cells(results[i])) + ("\n" + Lines(results[i + 1..])));
    }
    assert results[|results|..] == [];
    assert out + "" == out;
  }

  // ----- Reading, as the standard defines it -----

  datatype Mode = FieldStart | Bare | Quoted | QuoteSeen

  /** The rest of a document's records, given where in a field the reader is, what it has of that
      field, and the fields before it in the record. */
  function Read(s: string, mode: Mode, field: string, record: seq<string>): Option<seq<seq<string>>>
    decreases |s|
  {
    if s == "" then
      if mode.Quoted? then None
      else if mode.FieldStart? && record == [] then Some([])
      else Some([record + [field]])
    else
      var c, rest := s[0], s[1..];
      if mode.Quoted? then
        if c == '"' then Read(rest, QuoteSeen, field, record) else Read(rest, Quoted, field + [c], record)
      else if mode.QuoteSeen? && c == '"' then Read(rest, Quoted, field + [c], record)
      else if c == ',' then Read(rest, FieldStart, "", record + [field])
      else if c == '\n' then EndRecord(record + [field], Read(rest, FieldStart, "", []))
      else if c == '\r' then
        if rest != "" && rest[0] == '\n' then EndRecord(record + [field], Read(rest[1..], FieldStart, "", []))
        else None
      else if mode.FieldStart? && c == '"' then Read(rest, Quoted, "", record)
      else if mode.QuoteSeen? || c == '"' then None
      else Read(rest, Bare, field + [c], record)
  }

  function EndRecord(record: seq<string>, rest: Option<seq<seq<string>>>): Option<seq<seq<string>>> {
    match rest
    case None => None
    case Some(records) => Some([record] + records)
  }

  function ReadDocument(s: string): Option<seq<seq<string>>> {
    Read(s, FieldStart, "", [])
  }

  // ----- Writing then reading -----

  /** What the reader makes of a field once it meets the delimiter that starts `rest`. */
  function AfterField(rest: string, field: string, record: seq<string>): Option<seq<seq<string>>>
    requires rest != "" && (rest[0] == ',' || rest[0] == '\n')
  {
    if rest[0] == ',' then Read(rest[1..], FieldStart, "", record + [field])
    else EndRecord(record + [field], Read(rest[1..], FieldStart, "", []))
  }

  lemma {:induction false} ReadBare(v: string, rest: string, mode: Mode, field: string, record: seq<string>)
    requires IsPlain(v) && rest != "" && (rest[0] == ',' || rest[0] == '\n')
    requires mode == Bare || (mode == FieldStart && field == "")
    ensures Read(v + rest, mode, field, record) == AfterField(rest, field + v, record)
    decreases |v|
  {
    if v == "" {
      assert v + rest == rest && field + v == field;
    } else {
      assert !NeedsQuotes(v[0]);
      assert (v + rest)[1..] == v[1..] + rest;
      ReadBare(v[1..], rest, Bare, field + [v[0]], record);
      assert field + [v[0]] + v[1..] == field + v;
    }
  }

  lemma {:induction false} ReadQuoted(v: string, rest: string, field: string, record: seq<string>)
    requires rest != "" && (rest[0] == ',' || rest[0] == '\n')
    ensures Read(Doubled(v) + ("\"" + rest), Quoted, field, record) == AfterField(rest, field + v, record)
    decreases |v|
  {
    var s := Doubled(v) + ("\"" + rest);
    if v == "" {
      assert s == "\"" + rest && field + v == field;
      assert s[1..] == rest;
    } else {
      ReadQuoted(v[1..], rest, field + [v[0]], record);
      assert field + [v[0]] + v[1..] == field + v;
      var tail := Doubled(v[1..]) + ("\"" + rest);
      if v[0] == '"' {
        assert s == "\"\"" + tail;
        assert s[1..] == "\"" + tail && s[1..][1..] == tail;
      } else {
        assert s == [v[0]] + tail;
        assert s[1..] == tail;
      }
    }
  }

  lemma OpenQuote(tail: string, record: seq<string>)
    ensures Read("\"" + tail, FieldStart, "", record) == Read(tail, Quoted, "", record)
  {
    assert ("\"" + tail)[1..] == tail;
  }

  /** An escaped value reads back as the value, whatever characters it holds. */
  lemma ReadEscaped(v: string, rest: string, record: seq<string>)
    requires rest != "" && (rest[0] == ',' || rest[0] == '\n')
    ensures Read(CsvEscape(v) + rest, FieldStart, "", record) == AfterField(rest, v, record)
  {
    hide Read, Doubled, IsPlain;
    assert "" + v == v;
    if IsPlain(v) {
      ReadBare(v, rest, FieldStart, "", record);
    } else {
      assert CsvEscape(v) + rest == "\"" + (Doubled(v) + ("\"" + rest));
      OpenQuote(Doubled(v) + ("\"" + rest), record);
      ReadQuoted(v, rest, "", record);
    }
  }

  /** A joined line of escaped values reads back as one record of those values. */
  lemma {:induction false} ReadLine(cells: seq<string>, values: seq<string>, rest: string, record: seq<string>)
    requires |cells| == |values| >= 1
    requires forall i :: 0 <= i < |cells| ==> cells[i] == CsvEscape(values[i])
    ensures Read(Join(cells) + ("\n" + rest), FieldStart, "", record)
              == EndRecord(record + values, Read(rest, FieldStart, "", []))
    decreases |cells|
  {
    hide Read, CsvEscape;
    var v := values[0];
    if |cells| == 1 {
      ReadEscaped(v, "\n" + rest, record);
      assert ("\n" + rest)[1..] == rest;
      assert values == [v];
    } else {
      var tail := "," + (Join(cells[1..]) + ("\n" + rest));
      assert Join(cells) + ("\n" + rest) == cells[0] + tail;
      ReadEscaped(v, tail, record);
      assert tail[1..] == Join(cells[1..]) + ("\n" + rest);
      ReadLine(cells[1..], values[1..], rest, record + [v]);
      assert record + [v] + values[1..] == record + values;
    }
  }

  lemma {:induction false} DigitsArePlain(s: string)
    requires AllDigits(s)
    ensures IsPlain(s)
  {
    forall i | 0 <= i < |s|
      ensures !NeedsQuotes(s[i])
    {
      assert IsDigit(s[i]);
    }
  }

  lemma IntTextIsPlain(i: int)
    ensures IsPlain(IntText(i))
  {
    DigitsArePlain(Digits(if i < 0 then -i else i));
  }

  lemma CellsAreEscaped(r: EstimateAllResult)
    ensures |Cells(r)| == |Columns(r)| == 10
    ensures forall i :: 0 <= i < 10 ==> Cells(r)[i] == CsvEscape(Columns(r)[i])
  {
    hide Digits, IntText;
    assert IsPlain(StatusLabel(r.status));
    forall i | 2 <= i < 8
      ensures IsPlain(Columns(r)[i])
    {
      DigitsArePlain(Columns(r)[i]);
    }
    IntTextIsPlain(if r.fee.Some? then r.fee.value.totalStroops else 0);
  }

  lemma HeaderIsPlain()
    ensures forall i :: 0 <= i < 10 ==> HEADER_FIELDS[i] == CsvEscape(HEADER_FIELDS[i])
  {
    assert IsPlain("Function") && IsPlain("Status") && IsPlain("CPU_Instructions") && IsPlain("RAM_Bytes");
    assert IsPlain("Read_Entries") && IsPlain("Write_Entries") && IsPlain("Read_Bytes") && IsPlain("Write_Bytes");
    assert IsPlain("Total_Fee_Stroops") && IsPlain("Total_Fee_XLM");
  }

  function AllColumns(results: seq<EstimateAllResult>): (rows: seq<seq<string>>)
    ensures |rows| == |results|
    ensures forall i :: 0 <= i < |rows| ==> rows[i] == Columns(results[i])
  {
    if results == [] then [] else [Columns(results[0])] + AllColumns(results[1..])
  }

  lemma {:induction false} ReadLines(results: seq<EstimateAllResult>)
    ensures Read(Lines(results), FieldStart, "", []) == Some(AllColumns(results))
  {
    if results == [] {
    } else {
      hide Read, Cells, Columns;
      ReadLines(results[1..]);
      CellsAreEscaped(results[0]);
      ReadLine(Cells(results[0]), Columns(results[0]), Lines(results[1..]), []);
      assert [] + Columns(results[0]) == Columns(results[0]);
    }
  }

  /** The whole report reads back: the header, then one record of ten fields per result, each
      holding exactly what was reported. */
  lemma DocumentReadsBack(results: seq<EstimateAllResult>)
    ensures ReadDocument(Document(results)) == Some([HEADER_FIELDS] + AllColumns(results))
  {
    hide Read, Join;
    HeaderIsPlain();
    ReadLines(results);
    ReadLine(HEADER_FIELDS, HEADER_FIELDS, Lines(results), []);
    assert [] + HEADER_FIELDS == HEADER_FIELDS;
  }
}
