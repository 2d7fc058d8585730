/**
 The driver, `main` in main.py: list the images of the rendered chart, scan
 each one, gather the kept records in image order, and write a report only
 when there is something to report. The grype invocation is a parameter
 `scan` that gives the outcome of scanning each image.
 */
module Pipeline {

  import opened Wrappers
  import opened Images
  import opened Grype
  import opened Report

  /** Every scan of `images` failed. */
  predicate AllFailed(images: seq<string>, scan: string -> ScanResult) {
    forall x | x in images :: scan(x).Failed?
  }

  /** The records of all scans of `images`, image after image. When every
      scan fails nothing is gathered. */
  function Aggregate(images: seq<string>, scan: string -> ScanResult): (r: seq<Vulnerability>)
    ensures AllFailed(images, scan) ==> r == []
    decreases |images|
  {
    if images == [] then []
    else
      var last := images[|images| - 1];
      Aggregate(images[..|images| - 1], scan) + Findings(last, scan(last))
  }

  /** Every gathered record names one of the scanned images and carries a
      reported severity. */
  lemma {:induction false} AggregateSound(images: seq<string>, scan: string -> ScanResult)
    ensures forall j | 0 <= j < |Aggregate(images, scan)| ::
      Aggregate(images, scan)[j].image in images && Reported(Aggregate(images, scan)[j].severity)
    decreases |images|
  {
    if images != [] {
      var front := images[..|images| - 1];
      AggregateSound(front, scan);
      var r := Aggregate(images, scan);
      var rf := Aggregate(front, scan);
      var last := images[|images| - 1];
      FindingsSound(last, scan(last));
      forall j | 0 <= j < |r|
        ensures r[j].image in images && Reported(r[j].severity)
      {
        if j < |rf| {
          assert r[j] == rf[j];
          assert rf[j].image in front;
        }
      }
    }
  }

  /** Gathering over a concatenation of image lists concatenates the
      gathered records. */
  lemma {:induction false} AggregateAppend(a: seq<string>, b: seq<string>, scan: string -> ScanResult)
    ensures Aggregate(a + b, scan) == Aggregate(a, scan) + Aggregate(b, scan)
    decreases |b|
  {
    if b == [] {
      assert a + b == a;
    } else {
      var b', last := b[..|b| - 1], b[|b| - 1];
      calc {
        Aggregate(a + b, scan);
        { assert (a + b)[..|a + b| - 1] == a + b' && (a + b)[|a + b| - 1] == last; }
        Aggregate(a + b', scan) + Findings(last, scan(last));
        { AggregateAppend(a, b', scan); }
        Aggregate(a, scan) + Aggregate(b', scan) + Findings(last, scan(last));
        Aggregate(a, scan) + Aggregate(b, scan);
      }
    }
  }

  /** The number of records each scan contributes, summed over `images`. */
  function TotalFindings(images: seq<string>, scan: string -> ScanResult): nat
    decreases |images|
  {
    if images == [] then 0
    else
      var last := images[|images| - 1];
      TotalFindings(images[..|images| - 1], scan) + |Findings(last, scan(last))|
  }

  /** The gathered list is as long as the per-image lists together. */
  lemma {:induction false} AggregateLength(images: seq<string>, scan: string -> ScanResult)
    ensures |Aggregate(images, scan)| == TotalFindings(images, scan)
    decreases |images|
  {
    if images != [] {
      AggregateLength(images[..|images| - 1], scan);
    }
  }

  /** Every scan's records appear whole and in place, between the records of
      the images before it and those of the images after it. */
  lemma ScanInPlace(before: seq<string>, image: string, after: seq<string>, scan: string -> ScanResult)
    ensures Aggregate(before + [image] + after, scan) ==
      Aggregate(before, scan) + Findings(image, scan(image)) + Aggregate(after, scan)
  {
    AggregateAppend(before + [image], after, scan);
    assert (before + [image])[..|before|] == before;
  }

  /** A failed scan leaves out only its own image: the others' records are
      gathered as if it had not been listed. */
  lemma FailedScanSkipped(before: seq<string>, image: string, after: seq<string>, scan: string -> ScanResult)
    requires scan(image).Failed?
    ensures Aggregate(before + [image] + after, scan) == Aggregate(before + after, scan)
  {
    ScanInPlace(before, image, after, scan);
    AggregateAppend(before, after, scan);
  }

  /** Every data row of a report of the gathered records names a scanned
      image in its first column and a reported severity in its last. */
  lemma ReportRowsReported(images: seq<string>, scan: string -> ScanResult, t: Table, d: Date)
    requires ValidDate(d) && Tabulates(t, Aggregate(images, scan), d)
    ensures forall j | 1 <= j < |t.rows| :: |t.rows[j]| == 4 && t.rows[j][0] in images && Reported(t.rows[j][3])
  {
    AggregateSound(images, scan);
  }

  /** `main` once the chart is rendered: `manifest` is the output of `helm
      template`, `scan` the outcome of `grype` on each image and `today` the
      date of the run. Returns the images in the order they were scanned and
      the report, if any was written. */
  method Run(manifest: seq<string>, scan: string -> ScanResult, today: Date)
    returns (images: seq<string>, report: Option<Table>)
    requires ValidDate(today)
    ensures Distinct(images)
    ensures forall x :: x in images <==> x in ImageSet(manifest)
    ensures report.Some? <==> Aggregate(images, scan) != []
    ensures report.Some? ==> Tabulates(report.value, Aggregate(images, scan), today)
    ensures report.Some? ==> forall j | 1 <= j < |report.value.rows| ::
      report.value.rows[j][0] in images && Reported(report.value.rows[j][3])
  {
    images := GetImages(manifest);
    var all: seq<Vulnerability> := [];
    for i := 0 to |images|
      invariant all == Aggregate(images[..i], scan)
    {
      var vulns := ScanImage(images[i], scan(images[i]));
      all := all + vulns;
      assert images[..i + 1][..i] == images[..i];
    }
    assert images[..|images|] == images;
    if all != [] {
      var t := SaveReport(all, today);
      report := Some(t);
      ReportRowsReported(images, scan, t, today);
    } else {
      report := None;
    }
  }

  /** Two images, the scan of the first fails and that of the second finds
      a High and a Negligible match: only the High one is gathered. */
  lemma PartialFailureExample()
    ensures Aggregate(["a:1", "b:1"], (image: string) =>
      if image == "a:1" then Failed
      else Ok([Match("openssl", "CVE-2023-0001", "High"), Match("libc", "CVE-2023-0002", "Negligible")]))
      == [Vulnerability("b:1", "openssl", "CVE-2023-0001", "High")]
  {
    var scan := (image: string) =>
      if image == "a:1" then Failed
      else Ok([Match("openssl", "CVE-2023-0001", "High"), Match("libc", "CVE-2023-0002", "Negligible")]);
    var images := ["a:1", "b:1"];
    assert images[..1] == ["a:1"] && ["a:1"][..0] == [];
    assert "b:1" != "a:1" by { assert "b:1"[0] != "a:1"[0]; }
    var ms := [Match("openssl", "CVE-2023-0001", "High"), Match("libc", "CVE-2023-0002", "Negligible")];
    assert ms[..1] == [ms[0]] && [ms[0]][..0] == [];
    assert "Negligible" !in ReportedSeverities;
  }

}
