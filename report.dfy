/**
 The CSV report, `save_vulnerabilities_to_csv` in main.py. The clock and
 the file system are outside the model: the date comes in as a value, and
 the written file is the table of rows that `csv.DictWriter` is handed.
 */
module Report {

  import opened Text
  import opened Grype

  /** A calendar date, as `datetime.now()` supplies it. */
  datatype Date = Date(year: nat, month: nat, day: nat)

  /** The range of Python's `datetime`: years 1 to 9999. */
  predicate ValidDate(d: Date) {
    1 <= d.year <= 9999 && 1 <= d.month <= 12 && 1 <= d.day <= 31
  }

  /** `strftime('%Y-%m-%d')`: the year in four digits and the month and
      day in two, joined by dashes; each digit group reads back as the
      number it stands for. */
  function DateStamp(d: Date): (stamp: string)
    requires ValidDate(d)
    ensures |stamp| == 10 && stamp[4] == '-' && stamp[7] == '-'
    ensures forall k | 0 <= k < 10 && k != 4 && k != 7 :: IsDigit(stamp[k])
    ensures DigitsValue(stamp[..4]) == d.year
    ensures DigitsValue(stamp[5..7]) == d.month
    ensures DigitsValue(stamp[8..]) == d.day
  {
    assert Pow10(2) == 100 && Pow10(4) == 10000 by {
      assert Pow10(1) == 10;
      assert Pow10(3) == 1000;
    }
    var y := ZeroPadded(d.year, 4);
    var m := ZeroPadded(d.month, 2);
    var dd := ZeroPadded(d.day, 2);
    var stamp := y + "-" + m + "-" + dd;
    assert stamp[..4] == y && stamp[5..7] == m && stamp[8..] == dd;
    stamp
  }

  /** The report's file name. */
  function FileName(d: Date): (name: string)
    requires ValidDate(d)
    ensures |name| == 35 && name[..10] == DateStamp(d)
    ensures name[10..] == "_vulnerability_report.csv"
  {
    DateStamp(d) + "_vulnerability_report.csv"
  }

  /** The CSV columns, in order. */
  const FieldNames: seq<string> := ["image:tag", "component/library", "vulnerability", "severity"]

  /** The dictionary main.py hands to `writerow` for one record. */
  function RowDict(v: Vulnerability): (d: map<string, string>)
    ensures d.Keys == set k | k in FieldNames
  {
    map["image:tag" := v.image, "component/library" := v.component,
        "vulnerability" := v.vulnerability, "severity" := v.severity]
  }

  /** `csv.DictWriter.writerow`: one cell per field name, in field-name
      order, and the empty default for a field the dictionary lacks. The
      writer refuses keys outside the field names. */
  function DictRow(fieldNames: seq<string>, d: map<string, string>): (row: seq<string>)
    requires forall key | key in d :: key in fieldNames
    ensures |row| == |fieldNames|
    ensures forall k | 0 <= k < |row| && fieldNames[k] in d :: row[k] == d[fieldNames[k]]
    ensures forall k | 0 <= k < |row| && fieldNames[k] !in d :: row[k] == ""
  {
    seq(|fieldNames|, k requires 0 <= k < |fieldNames| => if fieldNames[k] in d then d[fieldNames[k]] else "")
  }

  /** The row written for a record holds its image, component,
      vulnerability id and severity, in that order. */
  lemma RowOfRecord(v: Vulnerability)
    ensures DictRow(FieldNames, RowDict(v)) == [v.image, v.component, v.vulnerability, v.severity]
  {
    var row := DictRow(FieldNames, RowDict(v));
    assert row[0] == v.image && row[1] == v.component;
    assert row[2] == v.vulnerability && row[3] == v.severity;
  }

  /** A written file: its name and its rows. */
  datatype Table = Table(fileName: string, rows: seq<seq<string>>)

  /** `t` is the report of `vulns` on day `d`: the dated file name, the
      header row, then one row per record in record order. */
  ghost predicate Tabulates(t: Table, vulns: seq<Vulnerability>, d: Date)
    requires ValidDate(d)
  {
    && t.fileName == FileName(d)
    && |t.rows| == |vulns| + 1
    && t.rows[0] == FieldNames
    && forall j | 1 <= j < |t.rows| ::
         t.rows[j] == [vulns[j - 1].image, vulns[j - 1].component, vulns[j - 1].vulnerability, vulns[j - 1].severity]
  }

  /** `save_vulnerabilities_to_csv`: write the header, then a row per
      record. */
  method SaveReport(vulns: seq<Vulnerability>, today: Date) returns (t: Table)
    requires ValidDate(today)
    ensures Tabulates(t, vulns, today)
  {
    var rows := [FieldNames];
    for i := 0 to |vulns|
      invariant |rows| == i + 1 && rows[0] == FieldNames
      invariant forall j | 1 <= j < |rows| ::
        rows[j] == [vulns[j - 1].image, vulns[j - 1].component, vulns[j - 1].vulnerability, vulns[j - 1].severity]
    {
      RowOfRecord(vulns[i]);
      rows := rows + [DictRow(FieldNames, RowDict(vulns[i]))];
    }
    t := Table(FileName(today), rows);
  }

}
