/** Which files of the input directory are processed, and where the results go. */
module FileSelection {
  import opened JavaStrings

  /** The `listFiles` filter: the lower-cased name ends with ".jpg" or ".jpeg". */
  predicate IsCandidate(name: string) {
    EndsWith(ToLower(name), ".jpg") || EndsWith(ToLower(name), ".jpeg")
  }

  /** Characters equal up to ASCII letter case. */
  predicate SameIgnoringCase(a: string, b: string) {
    |a| == |b| && forall k :: 0 <= k < |a| ==> LowerChar(a[k]) == LowerChar(b[k])
  }

  /** Whether the last |suffix| characters of `name` spell `suffix` up to letter case. */
  predicate HasSuffixIgnoringCase(name: string, suffix: string) {
    |suffix| <= |name| && SameIgnoringCase(name[|name| - |suffix|..], suffix)
  }

  lemma EndsWithLower(name: string, suffix: string)
    requires ToLower(suffix) == suffix
    ensures EndsWith(ToLower(name), suffix) <==> HasSuffixIgnoringCase(name, suffix)
  {
    var n, m := |name|, |suffix|;
    if m <= n {
      var tail := ToLower(name)[n - m..];
      forall k | 0 <= k < m
        ensures tail[k] == LowerChar(name[n - m + k]) && suffix[k] == LowerChar(suffix[k])
      {
        ToLowerAt(name, n - m + k);
        ToLowerAt(suffix, k);
      }
      if tail == suffix {
        assert SameIgnoringCase(name[n - m..], suffix);
      }
      if SameIgnoringCase(name[n - m..], suffix) {
        forall k | 0 <= k < m ensures tail[k] == suffix[k] {
          assert name[n - m..][k] == name[n - m + k];
        }
      }
    }
  }

  /** A name is a candidate exactly when it ends in ".jpg" or ".jpeg" in any letter case. */
  lemma CandidateIgnoresCase(name: string)
    ensures IsCandidate(name) <==> HasSuffixIgnoringCase(name, ".jpg") || HasSuffixIgnoringCase(name, ".jpeg")
  {
    assert ToLower(".jpg") == ".jpg";
    assert ToLower(".jpeg") == ".jpeg";
    EndsWithLower(name, ".jpg");
    EndsWithLower(name, ".jpeg");
  }

  /** Upper- and mixed-case extensions are accepted ... */
  lemma CandidateAccepts()
    ensures IsCandidate("A.JPG") && IsCandidate("b.JpEg")
  {
    CandidateIgnoresCase("A.JPG");
    CandidateIgnoresCase("b.JpEg");
  }

  /** ... other extensions, a bare "jpg" and a ".jpg" inside the name are not. */
  lemma CandidateRejects()
    ensures !IsCandidate("a.png") && !IsCandidate("jpg") && !IsCandidate("a.jpg.png")
  {
    CandidateIgnoresCase("a.png");
    CandidateIgnoresCase("jpg");
    CandidateIgnoresCase("a.jpg.png");
  }

  /** The output directory's name: the input directory's name with "_watermark" appended. */
  function OutputDirName(inputName: string): (r: string)
    ensures |r| == |inputName| + 10 && r[..|inputName|] == inputName
    ensures r[|inputName|..] == "_watermark"
  {
    inputName + "_watermark"
  }

  /**
   * Distinct input directories get distinct output directories, and the output
   * directory is never the input directory, so the originals are never overwritten.
   */
  lemma OutputDirNameInjective(a: string, b: string)
    ensures OutputDirName(a) == OutputDirName(b) <==> a == b
    ensures OutputDirName(a) != a
  {
    if OutputDirName(a) == OutputDirName(b) {
      assert a == OutputDirName(a)[..|a|];
    }
  }
}
