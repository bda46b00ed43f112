/**
 * The scaling script as a whole: select the SEG-Y files under the input
 * folder, find the global maximum amplitude over all of them (pass 1), then
 * divide every trace of every file by it and write each file out (pass 2).
 *
 * What `read` decodes from each selected file is the parameter `contents`;
 * reading the same path twice gives the same traces.
 */
module SgyScaling {
  import opened Selection
  import opened GlobalMaximum
  import opened Scaling

  datatype Outcome =
    | Raised(error: Error)
      // pass 1 raised ValueError; nothing is written
    | Written(paths: seq<Entry>, files: Corpus)
      // files[i] is what is written for paths[i]
    | WrittenNaN(paths: seq<Entry>)
      // the global maximum is 0 while files exist: every sample is 0, and
      // numpy's 0 / 0 writes NaN in its place in every file

  /** The decoded contents of the selected files, in list order. */
  function Decoded(files: seq<Entry>, contents: Entry -> File): (c: Corpus)
    ensures |c| == |files|
    ensures forall i :: 0 <= i < |files| ==> c[i] == contents(files[i])
  {
    seq(|files|, i requires 0 <= i < |files| => contents(files[i]))
  }

  /** Every sample of the corpus is zero. */
  ghost predicate AllZero(c: Corpus) {
    forall i, k, j :: 0 <= i < |c| && 0 <= k < |c[i]| && 0 <= j < |c[i][k]| ==> c[i][k][j] == 0.0
  }

  /** The script from line 25 to the end. */
  method Run(walk: seq<Listing>, contents: Entry -> File) returns (outcome: Outcome)
    ensures var c := Decoded(Selected(walk), contents);
      outcome.Raised? <==> exists i :: 0 <= i < |c| && !ValidFile(c[i])
    ensures var c := Decoded(Selected(walk), contents);
      outcome.Raised? ==>
        exists i :: FirstInvalid(c, i) && outcome.error == (if c[i] == [] then EmptyStream else EmptyTrace)
    ensures var c := Decoded(Selected(walk), contents);
      outcome.WrittenNaN? ==> outcome.paths == Selected(walk) != [] && AllZero(c)
    ensures var c := Decoded(Selected(walk), contents);
      outcome.Written? ==>
        && outcome.paths == Selected(walk)
        && (c == [] ==> outcome.files == [])
        && (c != [] ==> GlobalMax(c).Ok? && GlobalMax(c).value > 0.0 && outcome.files == ScaleCorpus(c, GlobalMax(c).value))
        && BoundsCorpus(outcome.files, 1.0)
        && (c != [] ==> AttainedInCorpus(outcome.files, 1.0))
  {
    var sgyFiles := SelectSgyFiles(walk);
    var corpus := Decoded(sgyFiles, contents);

    // Pass 1
    var result := ComputeGlobalMax(corpus);
    if result.Err? {
      return Raised(result.error);
    }
    var globalMax := result.value;
    GlobalMaxOfSamples(corpus);

    // Pass 2
    if globalMax == 0.0 {
      if sgyFiles == [] {
        return Written([], []);
      }
      return WrittenNaN(sgyFiles);
    }
    var written := ScaleFiles(corpus, globalMax);
    ScaledIntoUnitRange(corpus, globalMax);
    outcome := Written(sgyFiles, written);
  }
}
