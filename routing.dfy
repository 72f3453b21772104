/** How the upload endpoint classifies an upload by the suffix of its
    lower-cased file name, which temporary file name a volume is written to,
    and which slice of a volume is segmented. */
module Routing {

  /** Lower-casing of one character (ASCII letters only): a capital becomes
      the small letter at the same place in the alphabet, and every other
      character is unchanged. */
  function LowerChar(c: char): (d: char)
    ensures 'A' <= c <= 'Z' ==> 'a' <= d <= 'z' && d as int - 'a' as int == c as int - 'A' as int
    ensures !('A' <= c <= 'Z') ==> d == c
    ensures !('A' <= d <= 'Z')
  {
    if 'A' <= c <= 'Z' then (c as int - 'A' as int + 'a' as int) as char else c
  }

  /** `filename.lower()`: same length, each character lower-cased, so no
      upper-case letter is left. */
  function Lower(s: string): (t: string)
    ensures |t| == |s|
    ensures forall i :: 0 <= i < |s| ==> t[i] == LowerChar(s[i])
    ensures forall i :: 0 <= i < |t| ==> !('A' <= t[i] <= 'Z')
  {
    if s == [] then [] else [LowerChar(s[0])] + Lower(s[1..])
  }

  /** Lower-casing twice is lower-casing once. */
  lemma LowerIdempotent(s: string)
    ensures Lower(Lower(s)) == Lower(s)
  {
    var t := Lower(s);
    assert forall i :: 0 <= i < |t| ==> Lower(t)[i] == t[i];
  }

  /** Upper-casing of one character (ASCII letters only), the inverse
      direction of `LowerChar`. */
  function UpperChar(c: char): (d: char)
    ensures 'a' <= c <= 'z' ==> 'A' <= d <= 'Z' && d as int - 'A' as int == c as int - 'a' as int
    ensures !('a' <= c <= 'z') ==> d == c
  {
    if 'a' <= c <= 'z' then (c as int - 'a' as int + 'A' as int) as char else c
  }

  /** Upper-casing of a string, character by character. */
  function Upper(s: string): (t: string)
    ensures |t| == |s|
    ensures forall i :: 0 <= i < |s| ==> t[i] == UpperChar(s[i])
  {
    if s == [] then [] else [UpperChar(s[0])] + Upper(s[1..])
  }

  /** Lower-casing forgets case: a name and its upper-cased form lower-case
      to the same string, so `SCAN.NII` is treated like `scan.nii`. */
  lemma LowerOfUpper(s: string)
    ensures Lower(Upper(s)) == Lower(s)
  {
    var u := Upper(s);
    forall i | 0 <= i < |s|
      ensures Lower(u)[i] == Lower(s)[i]
    {
      assert LowerChar(UpperChar(s[i])) == LowerChar(s[i]);
    }
  }

  /** A name without upper-case letters is its own lower-cased form. */
  lemma LowerOfLowerCase(s: string)
    requires forall i :: 0 <= i < |s| ==> !('A' <= s[i] <= 'Z')
    ensures Lower(s) == s
  {
    assert forall i :: 0 <= i < |s| ==> Lower(s)[i] == s[i];
  }

  /** `s.endswith(suffix)`: the last `|suffix|` characters of `s` are those
      of `suffix`, in order. */
  predicate EndsWith(s: string, suffix: string): (b: bool)
    ensures b <==> |suffix| <= |s| &&
                   forall k :: 0 <= k < |suffix| ==> s[|s| - |suffix| + k] == suffix[k]
  {
    |suffix| <= |s| && s[|s| - |suffix|..] == suffix
  }

  /** Ending in a suffix is being some prefix followed by that suffix. */
  lemma EndsWithConcat(s: string, suffix: string)
    ensures EndsWith(s, suffix) <==> exists p :: s == p + suffix
  {
    if EndsWith(s, suffix) {
      assert s == s[..|s| - |suffix|] + suffix;
    }
    forall p | s == p + suffix
      ensures EndsWith(s, suffix)
    {
      assert s[|s| - |suffix|..] == suffix;
    }
  }

  /** `s.endswith(suffixes)` for a tuple of suffixes, tried in order: true
      exactly when `s` ends in one of them. */
  predicate EndsWithAny(s: string, suffixes: seq<string>): (b: bool)
    ensures b <==> exists i :: 0 <= i < |suffixes| && EndsWith(s, suffixes[i])
  {
    if |suffixes| == 0 then false
    else if EndsWith(s, suffixes[0]) then true
    else
      var rest := EndsWithAny(s, suffixes[1..]);
      assert forall i :: 1 <= i < |suffixes| ==> suffixes[i] == suffixes[1..][i - 1];
      rest
  }

  /** The suffixes decoded as raster images. */
  const ImageSuffixes: seq<string> := [".png", ".jpg", ".jpeg"]

  /** The suffixes loaded as NIfTI volumes. */
  const VolumeSuffixes: seq<string> := [".nii", ".nii.gz"]

  /** Name of the temporary file a volume upload is written to. */
  const GzipTempPath: string := "temp_input.nii.gz"
  const PlainTempPath: string := "temp_input.nii"

  /** The three ways the endpoint handles an upload. */
  datatype Route =
    | ImageRoute
    | VolumeRoute(tempPath: string)
    | Rejected(status: nat, message: string)

  /** The file the volume is staged in keeps the gzip suffix when the upload
      has it, so the loader sees a compressed file as compressed. */
  function TempPath(name: string): (p: string)
    ensures EndsWith(p, ".nii.gz") <==> EndsWith(name, ".nii.gz")
    ensures EndsWith(p, ".nii") <==> !EndsWith(name, ".nii.gz")
  {
    GzipTempPathSuffixes();
    PlainTempPathSuffixes();
    if EndsWith(name, ".nii.gz") then GzipTempPath else PlainTempPath
  }

  /** A string ending in `suffix` has `suffix`'s last character last. */
  lemma EndsWithLast(s: string, suffix: string)
    requires EndsWith(s, suffix) && |suffix| > 0
    ensures s[|s| - 1] == suffix[|suffix| - 1]
  {
    assert s[|s| - |suffix|..][|suffix| - 1] == s[|s| - 1];
  }

  /** A name whose last character differs from a suffix's does not end in it. */
  lemma NotEndsWithByLast(s: string, suffix: string)
    requires |s| > 0 && |suffix| > 0 && s[|s| - 1] != suffix[|suffix| - 1]
    ensures !EndsWith(s, suffix)
  {
    if EndsWith(s, suffix) {
      EndsWithLast(s, suffix);
    }
  }

  /** No name ends in both an image suffix and a volume suffix (the former end
      in 'g', the latter in 'i' or 'z'), so the order of the two tests in the
      endpoint does not matter. */
  lemma SuffixesDisjoint(name: string)
    ensures !(EndsWithAny(name, ImageSuffixes) && EndsWithAny(name, VolumeSuffixes))
  {
    if |name| > 0 && name[|name| - 1] == 'g' {
      NotEndsWithByLast(name, VolumeSuffixes[0]);
      NotEndsWithByLast(name, VolumeSuffixes[1]);
    } else if |name| > 0 {
      NotEndsWithByLast(name, ImageSuffixes[0]);
      NotEndsWithByLast(name, ImageSuffixes[1]);
      NotEndsWithByLast(name, ImageSuffixes[2]);
    }
  }

  /** The endpoint's dispatch: the lower-cased name selects the image branch
      for `.png`, `.jpg`, `.jpeg`, the volume branch for `.nii`, `.nii.gz`
      (with the temporary path chosen by the gzip suffix), and an HTTP 400
      error for every other name. */
  function RouteUpload(filename: string): (r: Route)
    ensures r.ImageRoute? <==> EndsWithAny(Lower(filename), ImageSuffixes)
    ensures r.VolumeRoute? <==> EndsWithAny(Lower(filename), VolumeSuffixes)
    ensures r.VolumeRoute? ==>
              (r.tempPath == GzipTempPath <==> EndsWith(Lower(filename), ".nii.gz")) &&
              (r.tempPath == PlainTempPath <==> !EndsWith(Lower(filename), ".nii.gz"))
    ensures r.Rejected? <==>
              !EndsWithAny(Lower(filename), ImageSuffixes) && !EndsWithAny(Lower(filename), VolumeSuffixes)
    ensures r.Rejected? ==> r.status == 400 && r.message == "Invalid file type"
  {
    SuffixesDisjoint(Lower(filename));
    var name := Lower(filename);
    if EndsWithAny(name, ImageSuffixes) then ImageRoute
    else if EndsWithAny(name, VolumeSuffixes) then VolumeRoute(TempPath(name))
    else Rejected(400, "Invalid file type")
  }

  /** The suffixes the gzip temporary path ends in. */
  lemma GzipTempPathSuffixes()
    ensures EndsWith(GzipTempPath, ".nii.gz") && !EndsWith(GzipTempPath, ".nii")
  {
    NotEndsWithByLast(GzipTempPath, ".nii");
  }

  /** The suffixes the plain temporary path ends in. */
  lemma PlainTempPathSuffixes()
    ensures EndsWith(PlainTempPath, ".nii") && !EndsWith(PlainTempPath, ".nii.gz")
  {
    NotEndsWithByLast(PlainTempPath, ".nii.gz");
  }

  /** The temporary file and the upload agree on every volume suffix, so the
      loader sees a compressed upload as compressed and a plain one as plain. */
  lemma TempPathKeepsSuffix(filename: string)
    requires RouteUpload(filename).VolumeRoute?
    ensures forall e :: e in VolumeSuffixes ==>
              (EndsWith(RouteUpload(filename).tempPath, e) <==> EndsWith(Lower(filename), e))
  {
    var name := Lower(filename);
    if EndsWith(name, ".nii.gz") {
      GzipTempPathSuffixes();
      NotEndsWithByLast(name, ".nii");
    } else {
      PlainTempPathSuffixes();
    }
  }

  /** A name ending in upper-case `.NII.GZ`, such as `Scan.NII.GZ`, takes
      the volume branch with the gzip temporary path. */
  lemma RouteUpperGzip(stem: string)
    ensures RouteUpload(stem + UpperGzipSuffix) == VolumeRoute(GzipTempPath)
  {
    LowerConcat(stem, UpperGzipSuffix);
    EndsWithSecond(Lower(stem), Lower(UpperGzipSuffix));
    LowerUpperGzipSuffix();
    GzipVolumeRoute(stem + UpperGzipSuffix);
  }

  /** Upper or mixed case makes no difference: a name routes like its
      lower-cased form. */
  lemma RouteIgnoresCase(filename: string)
    ensures RouteUpload(Lower(filename)) == RouteUpload(filename)
  {
    LowerIdempotent(filename);
  }

  /** A name whose lower-cased form ends in `.nii` is a volume staged in the
      plain temporary file: it cannot also end in `.nii.gz` or an image suffix. */
  lemma PlainVolumeRoute(filename: string)
    requires EndsWith(Lower(filename), ".nii")
    ensures RouteUpload(filename) == VolumeRoute(PlainTempPath)
  {
    var name := Lower(filename);
    assert EndsWith(name, VolumeSuffixes[0]);
    NotEndsWithByLast(name, ".nii.gz");
  }

  /** A name whose lower-cased form ends in `.nii.gz` is a volume staged in
      the gzip temporary file. */
  lemma GzipVolumeRoute(filename: string)
    requires EndsWith(Lower(filename), ".nii.gz")
    ensures RouteUpload(filename) == VolumeRoute(GzipTempPath)
  {
    assert EndsWith(Lower(filename), VolumeSuffixes[1]);
  }

  /** The name the client script uploads. */
  const ClientUpload: string := "volume-0.nii"

  /** The client's upload name is lower case and ends in `.nii`. */
  lemma ClientUploadName()
    ensures Lower(ClientUpload) == ClientUpload && EndsWith(ClientUpload, ".nii")
  {
    assert forall i :: 0 <= i < |ClientUpload| ==> !('A' <= ClientUpload[i] <= 'Z');
    LowerOfLowerCase(ClientUpload);
  }

  /** The compressed-volume suffix written in upper case. */
  const UpperGzipSuffix: string := ".NII.GZ"

  /** Lower-casing works character by character, so it distributes over
      concatenation. */
  lemma LowerConcat(a: string, b: string)
    ensures Lower(a + b) == Lower(a) + Lower(b)
  {
    var s, t := a + b, Lower(a + b);
    forall i | 0 <= i < |s|
      ensures t[i] == (Lower(a) + Lower(b))[i]
    {
      if i < |a| {
        assert s[i] == a[i];
      } else {
        assert s[i] == b[i - |a|];
      }
    }
  }

  /** A concatenation ends in its second part. */
  lemma EndsWithSecond(a: string, b: string)
    ensures EndsWith(a + b, b)
  {
    assert (a + b)[|a|..] == b;
  }

  /** `.NII.GZ` lower-cases to `.nii.gz`. */
  lemma LowerUpperGzipSuffix()
    ensures Lower(UpperGzipSuffix) == ".nii.gz"
  {
    var t := Lower(UpperGzipSuffix);
    assert t[0] == LowerChar('.') && t[1] == LowerChar('N') && t[2] == LowerChar('I');
    assert t[3] == LowerChar('I') && t[4] == LowerChar('.');
    assert t[5] == LowerChar('G') && t[6] == LowerChar('Z');
  }

  /** The client script's own upload, `volume-0.nii`, is a plain volume. */
  lemma RouteClientVolume()
    ensures RouteUpload(ClientUpload) == VolumeRoute(PlainTempPath)
  {
    ClientUploadName();
    PlainVolumeRoute(ClientUpload);
  }

  /** `depth // 2`: the middle slice. It has as many slices before it as
      after it, or one more before it when the depth is even, and it is a
      valid index whenever the volume has a slice. */
  function MiddleSliceIndex(depth: nat): (k: nat)
    ensures 2 * k <= depth <= 2 * k + 1
    ensures depth >= 1 ==> k < depth
  {
    depth / 2
  }

  /** The balance property determines the middle index. */
  lemma MiddleSliceUnique(depth: nat, k: nat)
    requires 2 * k <= depth <= 2 * k + 1
    ensures k == MiddleSliceIndex(depth)
  {
  }
}
