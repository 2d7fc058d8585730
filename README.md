# helmchartscanner in Dafny

A model of the Helm chart vulnerability scanner in `main.py`. The script
renders a chart with `helm template` and collects every container image the
manifest names. It scans each image with `grype` and keeps the matches of
severity Medium, High or Critical. When anything was kept, it writes a dated
CSV report with one row per kept match.

The two external programs are not part of the model. What they produce comes
in as plain values:

- the standard output of `helm template` is a sequence of lines;
- the `grype` run for an image is a function `scan: string -> ScanResult`.
  Its value is `Failed` when the run raised `CalledProcessError`, and
  `Ok(matches)` with the already-decoded match list otherwise;
- the clock is a `Date` parameter.

Modules, one per function of `main.py`, plus two helpers:

- `Wrappers`: the `Option` datatype.
- `Text`: the parts of Python's `str` the script uses. These are `strip()`,
  `in`, the last field of `split`, and the zero-padded numbers of
  `strftime`. `IsSpace` is the whitespace test that `strip()` applies inside;
  `LastCut` is the left-to-right separator scan inside `split`.
- `Images`: `get_images_from_helm_chart` (image extraction and deduplication).
- `Grype`: `scan_image_with_grype` (severity filtering and records).
- `Report`: `save_vulnerabilities_to_csv` (file name, header and rows).
- `Pipeline`: `main` (the per-image loop, concatenation and the report decision).

The loops of `main.py` stay loops. `GetImages`, `ScanImage`, `SaveReport` and
`Run` are methods with loop invariants, and each is proved against a
specification function: `ImageSet`, `Kept`/`Findings`, `Tabulates` and
`Aggregate`. The lemmas state what the script promises about those functions.

A few facts about `main.py` that shape the model:

- the reported severities are the fixed list at main.py:40; there is no
  threshold setting;
- severities are raw strings compared exactly, so an unknown severity or
  another spelling is dropped;
- only whitespace is stripped from an image (main.py:20); quote characters
  stay part of it;
- failed scans are not counted, and the images are scanned one after
  another (main.py:81-84).

## Model

| member | source | states |
|---|---|---|
| Text.TrimStart | main.py:20 | the result is the suffix of the line left after the leading whitespace, and it does not begin with whitespace |
| Text.TrimEnd | main.py:20 | the result is the prefix left after the trailing whitespace, and it does not end with whitespace |
| Text.TrimStartAt | main.py:20 | when the first `i` characters are whitespace and the next is not, the left-stripped text is the suffix from `i` |
| Text.TrimEndAt | main.py:20 | when the characters from `n` on are whitespace and the one before is not, the right-stripped text is the prefix up to `n` |
| Text.Strip | main.py:20 | `strip()` yields a slice of its input with only whitespace on either side and no whitespace at its own ends |
| Text.StripUnique | main.py:20 | any slice with only whitespace around it and none at its ends is what `strip()` returns, so the stripped text is determined |
| Text.StripIdempotent | main.py:20 | stripping an already stripped string changes nothing |
| Text.Contains | main.py:19 | `'image:' in line` fails whenever the pattern is longer than the line, and the empty pattern is in every string |
| Text.LastCut | main.py:20 | the last field of `split` starts at 0 when no separator occurs, and otherwise right after an occurrence, with no separator starting at or after that point |
| Text.CutFacts | main.py:20 | the last field starts at 0 exactly when the separator is absent, and it holds no separator |
| Text.LastField | main.py:20 | `split(sep)[-1]` contains no `sep` |
| Text.ZeroPadded | main.py:56 | a number below 10^width is written in exactly `width` decimal digits that read back as the number |
| Images.ExtractImage | main.py:19-20 | the image taken from a line never contains `image:` |
| Images.MarkersApart | main.py:20 | two occurrences of `image:` never overlap |
| Images.MarkersBeforeLastCut | main.py:20 | every `image:` on the line ends at or before the point where `split("image:")[-1]` begins |
| Images.FieldAfterLastMarker | main.py:20 | for a line whose last `image:` starts at `p`, `split("image:")[-1]` is the text after position `p + 6` |
| Images.ExtractAfterLastMarker | main.py:19-20 | for a line whose last `image:` starts at `p`, the image is the stripped text after position `p + 6` |
| Images.ImageSet | main.py:17-21 | the image of every line holding `image:` is collected, and no collected image contains `image:` |
| Images.ListOf | main.py:22 | `list(images)` holds every element of the set exactly once |
| Images.GetImages | main.py:17-22 | the returned list has no duplicates; its elements are the images of the lines that contain `image:`; a manifest without such a line gives the empty list |
| Grype.Reported | main.py:40 | a severity is reported exactly when it is one of the strings "Medium", "High" and "Critical" |
| Grype.RecordOf | main.py:41-46 | the record carries the scanned image, the artifact name as component, the vulnerability id and the severity |
| Grype.Findings | main.py:36-50 | a failed scan gives no records, and a successful one at most one per match |
| Grype.Kept | main.py:37-46 | no more records than matches are kept |
| Grype.KeptSound | main.py:40-46 | every kept record names the scanned image and has severity Medium, High or Critical |
| Grype.FindingsSound | main.py:36-50 | the same holds for one scan's records, and a failed scan gives none |
| Grype.KeptAppend | main.py:37-46 | filtering preserves order: the records of two match lists joined are the records of each, joined |
| Grype.KeptMembers | main.py:37-46 | a record is kept exactly when some match with a reported severity produced it, with component = artifact name and vulnerability = vuln id |
| Grype.UnreportedDropped | main.py:40 | matches whose severity is anything other than the three exact strings (Low, Negligible, Unknown, other spellings) leave no record |
| Grype.ScanImage | main.py:36-50 | the loop returns the records the filter specifies, empty for a failed run; each names the image and has a reported severity |
| Report.DateStamp | main.py:56 | the date stamp is ten characters YYYY-MM-DD whose digit groups read back as the year, month and day |
| Report.FileName | main.py:56 | the file name is the ten-character date stamp followed by `_vulnerability_report.csv`, 35 characters in all |
| Report.RowDict | main.py:62-67 | the dictionary for a record has exactly the four field names as keys |
| Report.DictRow | main.py:58-62 | `DictWriter` writes one cell per field name, in field order: the dictionary's value for that name, or the empty string when the name is missing |
| Report.RowOfRecord | main.py:58-67 | the row `DictWriter` writes for a record holds image, component, vulnerability and severity, in that column order |
| Report.SaveReport | main.py:56-67 | the table is named `<YYYY-MM-DD>_vulnerability_report.csv`, starts with the header row and then has one row per record, in record order |
| Pipeline.Aggregate | main.py:78-84 | when every scan fails, nothing is gathered |
| Pipeline.AggregateSound | main.py:78-84 | every gathered record names one of the scanned images and has a reported severity |
| Pipeline.AggregateAppend | main.py:78-84 | gathering over two image lists joined gives the two gathered lists joined |
| Pipeline.AggregateLength | main.py:78-84 | the gathered list is as long as all per-image lists together |
| Pipeline.ScanInPlace | main.py:81-84 | each image's records appear whole, after those of the images before it and before those of the images after it |
| Pipeline.FailedScanSkipped | main.py:48-50 | a failed scan drops only its own image: the result equals gathering without that image |
| Pipeline.ReportRowsReported | main.py:61-67 | every data row of the report names a scanned image and carries a reported severity |
| Pipeline.Run | main.py:70-91 | the images are distinct and are the manifest's images; a report is written if and only if the gathered list is non-empty, and it is exactly the table of the gathered records in image order |
| Pipeline.PartialFailureExample | main.py:78-84 | with two images where the first scan fails and the second finds a High and a Negligible match, exactly the High record is gathered |

## Left out

- The `helm template` run, its `CalledProcessError`, its error message and `sys.exit(1)` (main.py:11-15, 23-25) are process control. The model starts from the output lines.
- `splitlines()` (main.py:18) is not modelled. The lines arrive already split.
- The `grype` run (main.py:32-33) is external; only its outcome, failed or not, is an input.
- When `helm` or `grype` cannot be started at all, `subprocess.run` (main.py:15, 33) raises `FileNotFoundError` or another `OSError`. Neither handler catches it, so it escapes `main`; `Failed` stands only for `CalledProcessError`, and this case is not modelled.
- `json.loads` and the JSON lookups (main.py:34, 37-39, 43-44) are not modelled. A `JSONDecodeError` or `KeyError` there escapes `main` uncaught, and that is not modelled either. A missing `matches` key reads as an empty match list, which the input `Ok([])` covers.
- `datetime.now()` is the `Date` parameter.
- Opening and writing the file, and CSV quoting and escaping (main.py:57-60), are library behaviour. The model produces the file name and the rows handed to `csv.DictWriter`.
- Every `print` (main.py:24, 49, 68, 74-76, 82, 89, 91) is console output and is left out. This includes the "Images found in {chart_name}:" line, which lacks its `f` prefix and prints the braces literally.
- Argument parsing and the usage exit (main.py:93-100) are process control.
- Text.Strip: whitespace is the ASCII part of Python's `str.isspace`, meaning space, `\t`, `\n`, `\v`, `\f`, `\r` and `\x1c` to `\x1f`. Non-ASCII whitespace such as U+00A0 or U+2003, which `strip()` also removes, is kept by the model.
- Report.DateStamp: the year is always padded to four digits, as Python documents for `%Y`. On glibc, years below 1000 print without padding; `datetime.now()` never returns such a year.
- `list(images)` orders the set by string hashes. `Images.ListOf` promises only some order, and the later steps are stated for whichever order it chooses.
