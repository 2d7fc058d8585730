/**
 Match filtering, `scan_image_with_grype` in main.py. The `grype` run and
 the decoding of its JSON output are outside the model: the scan arrives
 as the list of matches it reported, or as the failure of the run.
 */
module Grype {

  /** One entry of grype's `matches` list: the affected artifact's name and
      the vulnerability's id and raw severity string. */
  datatype Match = Match(artifactName: string, vulnId: string, severity: string)

  /** The outcome of one `grype <image> -o json` run. */
  datatype ScanResult = Failed | Ok(matches: seq<Match>)

  /** The record main.py builds for a kept match. */
  datatype Vulnerability = Vulnerability(image: string, component: string, vulnerability: string, severity: string)

  /** The severities that are reported, compared as exact strings. */
  const ReportedSeverities: seq<string> := ["Medium", "High", "Critical"]

  predicate Reported(severity: string)
    ensures Reported(severity) <==> severity == "Medium" || severity == "High" || severity == "Critical"
  {
    severity in ReportedSeverities
  }

  /** The record for match `m` of a scan of `image`. */
  function RecordOf(image: string, m: Match): (v: Vulnerability)
    ensures v.image == image && v.component == m.artifactName
    ensures v.vulnerability == m.vulnId && v.severity == m.severity
  {
    Vulnerability(image, m.artifactName, m.vulnId, m.severity)
  }

  /** The records kept from `ms`, in match order. */
  function Kept(image: string, ms: seq<Match>): (r: seq<Vulnerability>)
    ensures |r| <= |ms|
    decreases |ms|
  {
    if ms == [] then []
    else
      var m := ms[|ms| - 1];
      Kept(image, ms[..|ms| - 1]) + (if Reported(m.severity) then [RecordOf(image, m)] else [])
  }

  /** Every kept record names the scanned image and carries a reported
      severity. */
  lemma {:induction false} KeptSound(image: string, ms: seq<Match>)
    ensures forall j | 0 <= j < |Kept(image, ms)| ::
      Kept(image, ms)[j].image == image && Reported(Kept(image, ms)[j].severity)
    decreases |ms|
  {
    if ms != [] {
      KeptSound(image, ms[..|ms| - 1]);
    }
  }

  /** What one scan contributes: nothing when the run failed. */
  function Findings(image: string, result: ScanResult): (r: seq<Vulnerability>)
    ensures result.Failed? ==> r == []
    ensures result.Ok? ==> |r| <= |result.matches|
  {
    match result
    case Failed => []
    case Ok(ms) => Kept(image, ms)
  }

  /** The records of one scan, failed or not, name the scanned image and
      carry a reported severity. */
  lemma FindingsSound(image: string, result: ScanResult)
    ensures result.Failed? ==> Findings(image, result) == []
    ensures forall j | 0 <= j < |Findings(image, result)| ::
      Findings(image, result)[j].image == image && Reported(Findings(image, result)[j].severity)
  {
    if result.Ok? {
      KeptSound(image, result.matches);
    }
  }

  /** Filtering preserves order and works match by match: the records of
      a concatenation of match lists are the records of each list, one
      after the other. */
  lemma {:induction false} KeptAppend(image: string, a: seq<Match>, b: seq<Match>)
    ensures Kept(image, a + b) == Kept(image, a) + Kept(image, b)
    decreases |b|
  {
    if b == [] {
      assert a + b == a;
    } else {
      var b' := b[..|b| - 1];
      assert (a + b)[..|a + b| - 1] == a + b';
      KeptAppend(image, a, b');
    }
  }

  /** A record is kept exactly when some match with a reported severity
      produced it. */
  lemma {:induction false} KeptMembers(image: string, ms: seq<Match>, v: Vulnerability)
    ensures v in Kept(image, ms) <==>
      exists j | 0 <= j < |ms| :: Reported(ms[j].severity) && v == RecordOf(image, ms[j])
    decreases |ms|
  {
    if ms != [] {
      var front := ms[..|ms| - 1];
      KeptMembers(image, front, v);
      if v in Kept(image, ms) && v !in Kept(image, front) {
        assert Reported(ms[|ms| - 1].severity) && v == RecordOf(image, ms[|ms| - 1]);
      }
      if j :| 0 <= j < |ms| && Reported(ms[j].severity) && v == RecordOf(image, ms[j]) {
        if j < |ms| - 1 {
          assert front[j] == ms[j];
        }
      }
    }
  }

  /** Matches with any other severity ("Low", "Negligible", "Unknown", or a
      reported one spelled in another case) leave no record. */
  lemma {:induction false} UnreportedDropped(image: string, ms: seq<Match>)
    requires forall j | 0 <= j < |ms| :: !Reported(ms[j].severity)
    ensures Kept(image, ms) == []
    decreases |ms|
  {
    if ms != [] {
      UnreportedDropped(image, ms[..|ms| - 1]);
    }
  }

  /** `scan_image_with_grype` once grype has run: a failed run yields no
      records; otherwise each match with a reported severity becomes a
      record, in match order. */
  method ScanImage(image: string, result: ScanResult) returns (vulns: seq<Vulnerability>)
    ensures vulns == Findings(image, result)
    ensures forall j | 0 <= j < |vulns| :: vulns[j].image == image && Reported(vulns[j].severity)
  {
    vulns := [];
    match result
    case Failed =>
    case Ok(matches) =>
      for i := 0 to |matches|
        invariant vulns == Kept(image, matches[..i])
      {
        var m := matches[i];
        if Reported(m.severity) {
          vulns := vulns + [Vulnerability(image, m.artifactName, m.vulnId, m.severity)];
        }
        assert matches[..i + 1][..i] == matches[..i];
      }
      assert matches[..|matches|] == matches;
      KeptSound(image, matches);
  }

}
