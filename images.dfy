/**
 Image extraction, `get_images_from_helm_chart` in main.py. The `helm
 template` run is outside the model: its standard output arrives here
 already split into lines.
 */
module Images {

  import opened Text

  /** The case-sensitive key that marks a line as declaring an image. */
  const Marker: string := "image:"

  /** Every element occurs once. */
  predicate Distinct<T(==)>(s: seq<T>) {
    forall a, b | 0 <= a < b < |s| :: s[a] != s[b]
  }

  /** `line.split("image:")[-1].strip()`: the text after the last marker,
      without surrounding whitespace. It never holds the marker itself. */
  function ExtractImage(line: string): (image: string)
    ensures !Contains(image, Marker)
  {
    var field := LastField(line, Marker);
    StripAvoids(field, Marker);
    Strip(field)
  }

  /** Two occurrences of the marker never overlap: no proper suffix of
      "image:" is a prefix of it. */
  lemma MarkersApart(s: string, p: int, k: int)
    requires OccursAt(s, Marker, p) && OccursAt(s, Marker, k) && p < k
    ensures p + |Marker| <= k
  {
    if k < p + |Marker| {
      // s[k] is the 'i' that starts the second marker and one of "mage:"
      // inside the first
      CharOfOccurrence(s, Marker, k, 0);
      CharOfOccurrence(s, Marker, p, k - p);
      assert false;
    }
  }

  /** The last field of `split("image:")` starts after the last marker of
      the line: every marker ends at or before that point. */
  lemma MarkersBeforeLastCut(line: string, k: int)
    requires OccursAt(line, Marker, k)
    ensures k + |Marker| <= LastCut(line, Marker)
  {
    var c := LastCut(line, Marker);
    if c - |Marker| < k {
      // the marker at k would overlap the one that ends at c
      MarkersApart(line, c - |Marker|, k);
    }
  }

  /** For a line whose last marker starts at `p`, the last field of
      `split("image:")` is the text after that marker. */
  lemma FieldAfterLastMarker(line: string, p: int)
    requires OccursAt(line, Marker, p)
    requires forall k :: OccursAt(line, Marker, k) ==> k <= p
    ensures LastField(line, Marker) == line[p + |Marker|..]
  {
    var c := LastCut(line, Marker);
    MarkersBeforeLastCut(line, p);
    assert OccursAt(line, Marker, c - |Marker|);
  }

  /** For a line whose last marker starts at `p`, the image is the stripped
      text after that marker. */
  lemma ExtractAfterLastMarker(line: string, p: int)
    requires OccursAt(line, Marker, p)
    requires forall k :: OccursAt(line, Marker, k) ==> k <= p
    ensures ExtractImage(line) == Strip(line[p + |Marker|..])
  {
    FieldAfterLastMarker(line, p);
  }

  /** The images named by the lines that hold the marker. */
  ghost function ImageSet(manifest: seq<string>): (images: set<string>)
    ensures forall k | 0 <= k < |manifest| && Contains(manifest[k], Marker) :: ExtractImage(manifest[k]) in images
    ensures forall x | x in images :: !Contains(x, Marker)
  {
    ImagesBefore(manifest, |manifest|)
  }

  /** The images named by the marked lines among the first `n`. */
  ghost function ImagesBefore(manifest: seq<string>, n: int): set<string> {
    set k | 0 <= k < n && k < |manifest| && Contains(manifest[k], Marker) :: ExtractImage(manifest[k])
  }

  /** One more line adds its image when it holds the marker, and nothing
      otherwise. */
  lemma ImagesBeforeStep(manifest: seq<string>, i: int)
    requires 0 <= i < |manifest|
    ensures ImagesBefore(manifest, i + 1) ==
      ImagesBefore(manifest, i) + (if Contains(manifest[i], Marker) then {ExtractImage(manifest[i])} else {})
  {
  }

  /** `list(images)`: the elements of a set, each once, in some order. */
  method ListOf(found: set<string>) returns (images: seq<string>)
    ensures Distinct(images)
    ensures forall x :: x in images <==> x in found
  {
    images := [];
    var rest := found;
    while rest != {}
      invariant rest <= found
      invariant Distinct(images)
      invariant forall x :: x in images <==> x in found && x !in rest
      decreases |rest|
    {
      var x :| x in rest;
      images := images + [x];
      rest := rest - {x};
    }
  }

  /** `get_images_from_helm_chart` after the render: collect the image of
      every marked line into a set, then list the set in some order. */
  method GetImages(manifest: seq<string>) returns (images: seq<string>)
    ensures Distinct(images)
    ensures forall x :: x in images <==> x in ImageSet(manifest)
    ensures (forall k | 0 <= k < |manifest| :: !Contains(manifest[k], Marker)) ==> images == []
  {
    var found: set<string> := {};
    for i := 0 to |manifest|
      invariant found == ImagesBefore(manifest, i)
    {
      var line := manifest[i];
      if Contains(line, Marker) {
        found := found + {ExtractImage(line)};
      }
      ImagesBeforeStep(manifest, i);
    }
    images := ListOf(found);
    if images != [] {
      assert images[0] in found;
    }
  }

}
