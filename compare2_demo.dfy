/**
 The media comparison demo (demos/compare2.py): each uploaded file is coded
 on its own, and whenever both codes are present they are compared.

 The distance computation (`ic.iscc_compare`) is a parameter, the demo's
 directory `HERE` is a parameter, and, as in the first demo, the similarities
 stand for the chart drawn from them.
 */
module Compare2Demo {
  import opened Python
  import opened PyStr
  import opened Similarity

  /**
   `iscc_compare(iscc_a, iscc_b)`: nothing is compared unless both codes are
   non-empty; then the distances are converted with 64 bits.
   */
  method IsccCompare(isccA: Option<string>, isccB: Option<string>,
                     isccCompare: (string, string) -> Dict<string, DistValue>)
    returns (simData: Option<Dict<string, real>>)
    ensures simData.None? <==> !(Truthy(isccA) && Truthy(isccB))
    ensures simData.Some? ==>
      simData.value == DistToSimSpec(isccCompare(isccA.value, isccB.value), DEFAULT_DIM)
  {
    if !(Truthy(isccA) && Truthy(isccB)) {
      return None;
    }
    var distData := isccCompare(isccA.value, isccB.value);
    var sims := DistToSim(distData, DEFAULT_DIM);
    simData := Some(sims);
  }

  /**
   `rewrite_uri(filepath, sample_set)`: maps the temporary copy of a sample
   image back to the sample itself, `HERE/<sample_set>/<name>`, where "jpeg"
   in the file name becomes "jpg". An empty or missing path gives `None`.
   The sample set is one plain directory name and `here` an absolute path
   without a trailing slash, so joining them is text concatenation; a file
   name that is empty leaves no trailing slash, as with pathlib.
   */
  function RewriteUri(filepath: Option<string>, sampleSet: string, here: string): (uri: Option<string>)
    ensures uri.Some? <==> Truthy(filepath)
  {
    if Truthy(filepath) then
      var name := Replace(Name(filepath.value), "jpeg", "jpg");
      Some(here + "/" + sampleSet + (if name == "" then "" else "/" + name))
    else None
  }

  /** The rewritten URI is the sample directory plus a file name with no "/" and no "jpeg" left. */
  lemma RewriteUriShape(filepath: Option<string>, sampleSet: string, here: string)
    requires Truthy(filepath) && Name(filepath.value) != ""
    ensures var name := Replace(Name(filepath.value), "jpeg", "jpg");
      && RewriteUri(filepath, sampleSet, here) == Some(here + "/" + sampleSet + "/" + name)
      && IsComponent(name) && '/' !in name && !Contains(name, "jpeg")
  {
    var base := Name(filepath.value);
    var name := Replace(base, "jpeg", "jpg");
    ReplaceJpegComplete(base);
    ReplaceJpegNoSlash(base);
    ReplaceJpegHead(base);
    if |base| >= 2 {
      ReplaceJpegLength(base);
    } else {
      assert name == base;
    }
    assert here + "/" + sampleSet + ("/" + name) == here + "/" + sampleSet + "/" + name;
  }

  /**
   A path with no file name, such as "/", goes to the sample-set directory
   itself, with no trailing slash.
   */
  lemma RewriteUriNoName(filepath: Option<string>, sampleSet: string, here: string)
    requires Truthy(filepath) && Name(filepath.value) == ""
    ensures RewriteUri(filepath, sampleSet, here) == Some(here + "/" + sampleSet)
  {
    assert Replace(Name(filepath.value), "jpeg", "jpg") == "";
    var sampleDir := here + "/" + sampleSet;
    assert sampleDir + "" == sampleDir;
  }

  /** A sample image's own URI is rewritten to itself: rewriting twice is rewriting once. */
  lemma RewriteUriIdempotent(filepath: Option<string>, sampleSet: string, here: string)
    requires Truthy(filepath) && Name(filepath.value) != ""
    ensures RewriteUri(RewriteUri(filepath, sampleSet, here), sampleSet, here)
         == RewriteUri(filepath, sampleSet, here)
  {
    RewriteUriShape(filepath, sampleSet, here);
    var name := Replace(Name(filepath.value), "jpeg", "jpg");
    var uri := here + "/" + sampleSet + "/" + name;
    NameOfJoin(here + "/" + sampleSet, name);
    assert uri == (here + "/" + sampleSet) + "/" + name;
    ReplaceAbsent(name, "jpeg", "jpg");
  }

  /** An uploaded "photo.jpeg" in any directory goes back to `here/<sample set>/photo.jpg`. */
  lemma RewriteUriExample(dir: string, sampleSet: string, here: string)
    ensures RewriteUri(Some(dir + "/photo.jpeg"), sampleSet, here) == Some(here + "/" + sampleSet + "/photo.jpg")
  {
    var path, base, name := dir + "/photo.jpeg", "photo.jpeg", "photo.jpg";
    assert path == dir + "/" + base;
    assert path != "";
    PhotoName(dir, base);
    PhotoRewrite(base, name);
    var sampleDir := here + "/" + sampleSet;
    assert RewriteUri(Some(path), sampleSet, here) == Some(sampleDir + ("/" + name));
    assert sampleDir + ("/" + name) == sampleDir + "/photo.jpg";
  }

  lemma PhotoName(dir: string, base: string)
    requires base == "photo.jpeg"
    ensures Name(dir + "/" + base) == base
  {
    assert IsComponent(base) && '/' !in base;
    NameOfJoin(dir, base);
  }

  lemma PhotoRewrite(base: string, name: string)
    requires base == "photo.jpeg" && name == "photo.jpg"
    ensures Replace(base, "jpeg", "jpg") == name
  {
    var stem := "photo.";
    assert base == stem + "jpeg" && name == stem + "jpg";
    ReplaceJpegSuffix(stem);
  }
}
