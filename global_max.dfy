/**
 * Pass 1 of the scaling script: the corpus-wide maximum absolute amplitude.
 *
 * A decoded SEG-Y file is the sequence of its traces' sample arrays (the
 * `data` of each trace in the stream that obspy's `read` returns); samples are
 * modelled as reals. The per-file maximum is the largest absolute sample over
 * all traces of a file, and pass 1 folds the per-file maxima into a running
 * maximum that starts at 0.
 */
module GlobalMaximum {

  /** The samples of one trace. */
  type Samples = seq<real>
  /** A decoded file: one sample sequence per trace, in stream order. */
  type File = seq<Samples>
  /** The selected files, in the order the script visits them. */
  type Corpus = seq<File>

  /** The two ways the per-file maximum raises Python's ValueError. */
  datatype Error =
    | EmptyStream  // the file's stream holds no trace
    | EmptyTrace   // some trace of the file holds no sample

  datatype Result<T> = Ok(value: T) | Err(error: Error)

  function Abs(x: real): real {
    if x < 0.0 then -x else x
  }

  function Max(a: real, b: real): real {
    if a < b then b else a
  }

  /** Every sample of `f` has magnitude at most `m`. */
  ghost predicate BoundsFile(f: File, m: real) {
    forall k, j :: 0 <= k < |f| && 0 <= j < |f[k]| ==> Abs(f[k][j]) <= m
  }

  /** Some sample of `f` has magnitude exactly `m`. */
  ghost predicate AttainedInFile(f: File, m: real) {
    exists k, j :: 0 <= k < |f| && 0 <= j < |f[k]| && Abs(f[k][j]) == m
  }

  /** Every sample of every file of `c` has magnitude at most `m`. */
  ghost predicate BoundsCorpus(c: Corpus, m: real) {
    forall i, k, j :: 0 <= i < |c| && 0 <= k < |c[i]| && 0 <= j < |c[i][k]| ==> Abs(c[i][k][j]) <= m
  }

  /** Some sample of some file of `c` has magnitude exactly `m`. */
  ghost predicate AttainedInCorpus(c: Corpus, m: real) {
    exists i, k, j :: 0 <= i < |c| && 0 <= k < |c[i]| && 0 <= j < |c[i][k]| && Abs(c[i][k][j]) == m
  }

  /** A file on which the per-file maximum does not raise. */
  predicate ValidFile(f: File) {
    |f| > 0 && forall k :: 0 <= k < |f| ==> |f[k]| > 0
  }

  /** The largest sample magnitude in one non-empty trace. */
  function TraceMax(t: Samples): (r: real)
    requires |t| > 0
    ensures forall j :: 0 <= j < |t| ==> Abs(t[j]) <= r
    ensures exists j :: 0 <= j < |t| && Abs(t[j]) == r
  {
    if |t| == 1 then Abs(t[0])
    else
      var r := Max(TraceMax(t[..|t| - 1]), Abs(t[|t| - 1]));
      assert forall j :: 0 <= j < |t| - 1 ==> t[..|t| - 1][j] == t[j];
      r
  }

  /** The maximum of `TraceMax` over the traces of a valid file. */
  function TracesMax(f: File): (r: real)
    requires ValidFile(f)
    ensures BoundsFile(f, r)
    ensures AttainedInFile(f, r)
  {
    if |f| == 1 then
      TraceMax(f[0])
    else
      var front := f[..|f| - 1];
      assert forall k :: 0 <= k < |f| - 1 ==> front[k] == f[k];
      var a := TracesMax(front);
      Max(a, TraceMax(f[|f| - 1]))
  }

  /**
   * The per-file maximum of pass 1: it raises on a stream without traces or
   * on a trace without samples, and otherwise is the largest magnitude in the file.
   */
  function FileMax(f: File): (r: Result<real>)
    ensures r.Ok? <==> ValidFile(f)
    ensures r.Err? ==> r.error == (if f == [] then EmptyStream else EmptyTrace)
    ensures r.Ok? ==> r.value >= 0.0 && BoundsFile(f, r.value) && AttainedInFile(f, r.value)
  {
    if f == [] then Err(EmptyStream)
    else if exists k :: 0 <= k < |f| && f[k] == [] then Err(EmptyTrace)
    else
      Ok(TracesMax(f))
  }

  /** `m` is the maximum of the per-file maxima of `c`, or 0 when all are below it. */
  ghost predicate IsFoldOf(c: Corpus, m: real)
    requires forall i :: 0 <= i < |c| ==> ValidFile(c[i])
  {
    && m >= 0.0
    && (forall i :: 0 <= i < |c| ==> FileMax(c[i]).value <= m)
    && (m == 0.0 || exists i :: 0 <= i < |c| && FileMax(c[i]).value == m)
  }

  /** Index of the first file on which the per-file maximum raises. */
  ghost predicate FirstInvalid(c: Corpus, i: int) {
    0 <= i < |c| && !ValidFile(c[i]) && forall p :: 0 <= p < i ==> ValidFile(c[p])
  }

  /**
   * The loop of pass 1: starting from 0, the running maximum is raised to each
   * file's maximum in turn; the first file whose maximum raises ends it.
   */
  function GlobalMax(c: Corpus): Result<real> {
    if c == [] then Ok(0.0)
    else
      match GlobalMax(c[..|c| - 1])
      case Err(e) => Err(e)
      case Ok(acc) =>
        match FileMax(c[|c| - 1])
        case Err(e) => Err(e)
        case Ok(fm) => Ok(Max(acc, fm))
  }

  /**
   * The fold succeeds iff every file is valid, and is then the maximum of the
   * per-file maxima (or 0); otherwise it fails with the first invalid file's error.
   */
  lemma {:induction false} GlobalMaxIsFold(c: Corpus)
    ensures GlobalMax(c).Ok? <==> forall i :: 0 <= i < |c| ==> ValidFile(c[i])
    ensures GlobalMax(c).Ok? ==> IsFoldOf(c, GlobalMax(c).value)
    ensures GlobalMax(c).Err? ==> exists i :: FirstInvalid(c, i) && GlobalMax(c).error == FileMax(c[i]).error
  {
    if c != [] {
      var front := c[..|c| - 1];
      var last := c[|c| - 1];
      GlobalMaxIsFold(front);
      assert forall i :: 0 <= i < |c| - 1 ==> front[i] == c[i];
      match GlobalMax(front)
      case Err(e) =>
        assert forall i :: FirstInvalid(front, i) ==> FirstInvalid(c, i);
      case Ok(acc) =>
        match FileMax(last)
        case Err(e) =>
          assert FirstInvalid(c, |c| - 1);
        case Ok(fm) =>
          assert FileMax(c[|c| - 1]).value == fm;
    }
  }

  /** The fold characterisation pins down a single value. */
  lemma FoldUnique(c: Corpus, m1: real, m2: real)
    requires forall i :: 0 <= i < |c| ==> ValidFile(c[i])
    requires IsFoldOf(c, m1) && IsFoldOf(c, m2)
    ensures m1 == m2
  {
  }

  /** Upper bound and attainment of the global maximum, sample by sample. */
  lemma {:induction false} GlobalMaxOfSamples(c: Corpus)
    requires GlobalMax(c).Ok?
    ensures GlobalMax(c).value >= 0.0
    ensures BoundsCorpus(c, GlobalMax(c).value)
    ensures GlobalMax(c).value == 0.0 || AttainedInCorpus(c, GlobalMax(c).value)
    ensures GlobalMax(c).value > 0.0 <==> exists i, k, j :: 0 <= i < |c| && 0 <= k < |c[i]| && 0 <= j < |c[i][k]| && c[i][k][j] != 0.0
  {
    GlobalMaxIsFold(c);
    var m := GlobalMax(c).value;
    forall i, k, j | 0 <= i < |c| && 0 <= k < |c[i]| && 0 <= j < |c[i][k]|
      ensures Abs(c[i][k][j]) <= m
    {
      assert BoundsFile(c[i], FileMax(c[i]).value);
    }
    if m != 0.0 {
      var i :| 0 <= i < |c| && FileMax(c[i]).value == m;
      assert AttainedInFile(c[i], m);
      var k, j :| 0 <= k < |c[i]| && 0 <= j < |c[i][k]| && Abs(c[i][k][j]) == m;
      assert c[i][k][j] != 0.0;
    }
  }

  /** The accumulator never decreases along the file list. */
  lemma {:induction false} GlobalMaxMonotone(c: Corpus, p: nat, q: nat)
    requires p <= q <= |c|
    requires GlobalMax(c[..q]).Ok?
    ensures GlobalMax(c[..p]).Ok?
    ensures GlobalMax(c[..p]).value <= GlobalMax(c[..q]).value
  {
    if p < q {
      assert c[..q][..q - 1] == c[..q - 1];
      GlobalMaxMonotone(c, p, q - 1);
    }
  }

  /** The fold characterisation depends only on which files are present. */
  lemma FoldOfSameFiles(c: Corpus, d: Corpus, m: real)
    requires forall f :: f in c <==> f in d
    requires forall i :: 0 <= i < |c| ==> ValidFile(c[i])
    requires IsFoldOf(c, m)
    ensures forall i :: 0 <= i < |d| ==> ValidFile(d[i])
    ensures IsFoldOf(d, m)
  {
    forall i | 0 <= i < |d| ensures ValidFile(d[i]) && FileMax(d[i]).value <= m {
      assert d[i] in c;
    }
    if m != 0.0 {
      var i :| 0 <= i < |c| && FileMax(c[i]).value == m;
      assert c[i] in d;
    }
  }

  /** Reordering the files changes neither whether pass 1 raises nor its value. */
  lemma GlobalMaxOrderIndependent(c: Corpus, d: Corpus)
    requires multiset(c) == multiset(d)
    ensures GlobalMax(c).Ok? == GlobalMax(d).Ok?
    ensures GlobalMax(c).Ok? ==> GlobalMax(c) == GlobalMax(d)
  {
    forall f ensures f in c <==> f in d {
      assert f in c <==> f in multiset(c);
    }
    GlobalMaxIsFold(c);
    GlobalMaxIsFold(d);
    if GlobalMax(c).Ok? {
      FoldOfSameFiles(c, d, GlobalMax(c).value);
      FoldUnique(d, GlobalMax(c).value, GlobalMax(d).value);
    } else if GlobalMax(d).Ok? {
      FoldOfSameFiles(d, c, GlobalMax(d).value);
    }
  }

  /**
   * The loop of pass 1 (the reading of each file is replaced by its decoded
   * contents, in list order).
   */
  method ComputeGlobalMax(files: Corpus) returns (r: Result<real>)
    ensures r == GlobalMax(files)
    ensures files == [] ==> r == Ok(0.0)
    ensures r.Ok? <==> forall i :: 0 <= i < |files| ==> ValidFile(files[i])
    ensures r.Ok? ==> r.value >= 0.0 && BoundsCorpus(files, r.value)
    ensures r.Err? ==> exists i :: FirstInvalid(files, i) && r.error == FileMax(files[i]).error
  {
    var globalMax := 0.0;
    var i := 0;
    while i < |files|
      invariant 0 <= i <= |files|
      invariant GlobalMax(files[..i]) == Ok(globalMax)
    {
      assert files[..i + 1][..i] == files[..i];
      var fileMax := FileMax(files[i]);
      if fileMax.Err? {
        r := Err(fileMax.error);
        GlobalMaxPrefixFails(files, i + 1, |files|);
        assert files[..|files|] == files;
        GlobalMaxIsFold(files);
        return;
      }
      globalMax := Max(globalMax, fileMax.value);
      i := i + 1;
    }
    assert files[..i] == files;
    r := Ok(globalMax);
    GlobalMaxIsFold(files);
    GlobalMaxOfSamples(files);
  }

  /** Once a prefix of the file list fails, every longer prefix fails the same way. */
  lemma {:induction false} GlobalMaxPrefixFails(c: Corpus, p: nat, q: nat)
    requires p <= q <= |c|
    requires GlobalMax(c[..p]).Err?
    ensures GlobalMax(c[..q]) == GlobalMax(c[..p])
  {
    if p < q {
      GlobalMaxPrefixFails(c, p, q - 1);
      assert c[..q][..q - 1] == c[..q - 1];
      GlobalMaxErrStep(c[..q]);
    }
  }

  lemma GlobalMaxErrStep(c: Corpus)
    requires c != [] && GlobalMax(c[..|c| - 1]).Err?
    ensures GlobalMax(c) == GlobalMax(c[..|c| - 1])
  {
  }
}
