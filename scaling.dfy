/**
 * Pass 2 of the scaling script: every trace of every selected file has its
 * sample array replaced by its quotient by the global maximum.
 *
 * obspy's `read` is replaced by building fresh trace objects from a file's
 * decoded contents, and `stream.write` by collecting their data back into a
 * file value.
 */
module Scaling {
  import opened GlobalMaximum

  /** An obspy trace; only its sample array `data` is modelled. */
  class Trace {
    var data: Samples

    constructor (samples: Samples)
      ensures data == samples
    {
      data := samples;
    }
  }

  /** No trace object occurs twice in a stream. */
  ghost predicate Distinct(stream: seq<Trace>) {
    forall p, q :: 0 <= p < q < |stream| ==> stream[p] != stream[q]
  }

  /** The samples of one trace divided by `m`. */
  function ScaleTrace(t: Samples, m: real): (r: Samples)
    requires m > 0.0
    ensures |r| == |t|
    ensures forall j :: 0 <= j < |t| ==> r[j] == t[j] / m
  {
    seq(|t|, j requires 0 <= j < |t| => t[j] / m)
  }

  /** Every trace of a file divided by `m`. */
  function ScaleFile(f: File, m: real): (r: File)
    requires m > 0.0
    ensures |r| == |f|
    ensures forall k :: 0 <= k < |f| ==> |r[k]| == |f[k]|
    ensures forall k, j :: 0 <= k < |f| && 0 <= j < |f[k]| ==> r[k][j] == f[k][j] / m
  {
    seq(|f|, k requires 0 <= k < |f| => ScaleTrace(f[k], m))
  }

  /** Every file of a corpus scaled by `m`. */
  function ScaleCorpus(c: Corpus, m: real): (r: Corpus)
    requires m > 0.0
    ensures |r| == |c|
    ensures forall i :: 0 <= i < |c| ==> |r[i]| == |c[i]|
    ensures forall i, k :: 0 <= i < |c| && 0 <= k < |c[i]| ==> |r[i][k]| == |c[i][k]|
    ensures forall i, k, j :: 0 <= i < |c| && 0 <= k < |c[i]| && 0 <= j < |c[i][k]| ==> r[i][k][j] == c[i][k][j] / m
  {
    seq(|c|, i requires 0 <= i < |c| => ScaleFile(c[i], m))
  }

  /** The trace data of a stream, as `stream.write` would save it. */
  function StreamData(stream: seq<Trace>): (f: File)
    reads stream
    ensures |f| == |stream|
    ensures forall k :: 0 <= k < |stream| ==> f[k] == stream[k].data
  {
    seq(|stream|, k requires 0 <= k < |stream| reads stream => stream[k].data)
  }

  /** The stream `read` returns for a file whose decoded contents are `f`. */
  method NewStream(f: File) returns (stream: seq<Trace>)
    ensures |stream| == |f|
    ensures Distinct(stream)
    ensures forall k :: 0 <= k < |f| ==> fresh(stream[k]) && stream[k].data == f[k]
  {
    stream := [];
    for k := 0 to |f|
      invariant |stream| == k
      invariant Distinct(stream)
      invariant forall p :: 0 <= p < k ==> fresh(stream[p]) && stream[p].data == f[p]
    {
      var tr := new Trace(f[k]);
      stream := stream + [tr];
    }
  }

  /**
   * The inner loop of pass 2: each trace of the stream, in turn, has its data
   * replaced by that data divided by the global maximum.
   */
  method ScaleStream(stream: seq<Trace>, globalMax: real)
    requires globalMax > 0.0
    requires Distinct(stream)
    modifies set k | 0 <= k < |stream| :: stream[k]
    ensures forall k :: 0 <= k < |stream| ==> stream[k].data == ScaleTrace(old(stream[k].data), globalMax)
  {
    for k := 0 to |stream|
      invariant forall p :: 0 <= p < k ==> stream[p].data == ScaleTrace(old(stream[p].data), globalMax)
      invariant forall p :: k <= p < |stream| ==> stream[p].data == old(stream[p].data)
    {
      stream[k].data := ScaleTrace(stream[k].data, globalMax);
    }
  }

  /**
   * The loop of pass 2: read each file, scale its traces and write it out.
   * The result holds what is written for each file, in list order.
   */
  method ScaleFiles(files: Corpus, globalMax: real) returns (written: Corpus)
    requires globalMax > 0.0
    ensures written == ScaleCorpus(files, globalMax)
  {
    written := [];
    for i := 0 to |files|
      invariant |written| == i
      invariant forall p :: 0 <= p < i ==> written[p] == ScaleFile(files[p], globalMax)
    {
      var stream := NewStream(files[i]);
      ScaleStream(stream, globalMax);
      var data := StreamData(stream);
      assert data == ScaleFile(files[i], globalMax);
      written := written + [data];
    }
  }

  /** Dividing by `m` divides a file's largest magnitude by `m`. */
  lemma FileMaxOfScaled(f: File, m: real)
    requires m > 0.0 && ValidFile(f)
    ensures FileMax(ScaleFile(f, m)) == Ok(FileMax(f).value / m)
  {
    var g := ScaleFile(f, m);
    var v := FileMax(f).value;
    assert ValidFile(g);
    forall k, j | 0 <= k < |g| && 0 <= j < |g[k]| ensures Abs(g[k][j]) <= v / m {
      AbsOfQuotient(f[k][j], m);
      QuotientMonotone(Abs(f[k][j]), v, m);
    }
    var k, j :| 0 <= k < |f| && 0 <= j < |f[k]| && Abs(f[k][j]) == v;
    AbsOfQuotient(f[k][j], m);
    assert Abs(g[k][j]) == v / m;
    MaxUnique(g, v / m, FileMax(g).value);
  }

  /** A bound that is attained is the largest magnitude of a file. */
  lemma MaxUnique(f: File, a: real, b: real)
    requires BoundsFile(f, a) && AttainedInFile(f, a)
    requires BoundsFile(f, b) && AttainedInFile(f, b)
    ensures a == b
  {
  }

  lemma AbsOfQuotient(x: real, m: real)
    requires m > 0.0
    ensures Abs(x / m) == Abs(x) / m
  {
    if x < 0.0 {
      assert x / m == -((-x) / m);
    }
  }

  lemma QuotientAtMostOne(x: real, m: real)
    requires m > 0.0 && x <= m
    ensures x / m <= 1.0
  {
    QuotientMonotone(x, m, m);
  }

  lemma QuotientSelf(m: real)
    requires m > 0.0
    ensures m / m == 1.0
  {
  }

  lemma QuotientMonotone(x: real, y: real, m: real)
    requires m > 0.0 && x <= y
    ensures x / m <= y / m
  {
    assert y / m - x / m == (y - x) / m;
  }

  /** File by file, the maxima of the scaled corpus are the old ones divided by `m`. */
  lemma FileMaximaOfScaled(c: Corpus, m: real)
    requires m > 0.0
    requires forall i :: 0 <= i < |c| ==> ValidFile(c[i])
    ensures forall i :: 0 <= i < |c| ==> FileMax(ScaleCorpus(c, m)[i]) == Ok(FileMax(c[i]).value / m)
  {
    forall i | 0 <= i < |c| ensures FileMax(ScaleCorpus(c, m)[i]) == Ok(FileMax(c[i]).value / m) {
      FileMaxOfScaled(c[i], m);
    }
  }

  /**
   * Scaling by the global maximum makes 1 the global maximum of the output:
   * the loudest sample ends at magnitude exactly 1.
   */
  lemma ScaledGlobalMaxIsOne(c: Corpus, m: real)
    requires GlobalMax(c) == Ok(m) && m > 0.0
    ensures GlobalMax(ScaleCorpus(c, m)) == Ok(1.0)
  {
    var s := ScaleCorpus(c, m);
    GlobalMaxIsFold(c);
    FileMaximaOfScaled(c, m);
    QuotientsAtMostOne(c, s, m);
    QuotientReachesOne(c, s, m);
    FoldOfUnitMaxima(s);
  }

  lemma QuotientsAtMostOne(c: Corpus, s: Corpus, m: real)
    requires m > 0.0 && |s| == |c|
    requires forall i :: 0 <= i < |c| ==> ValidFile(c[i])
    requires IsFoldOf(c, m)
    requires forall i :: 0 <= i < |c| ==> FileMax(s[i]) == Ok(FileMax(c[i]).value / m)
    ensures forall i :: 0 <= i < |s| ==> FileMax(s[i]).value <= 1.0
  {
    forall i | 0 <= i < |s| ensures FileMax(s[i]).value <= 1.0 {
      QuotientAtMostOne(FileMax(c[i]).value, m);
    }
  }

  lemma QuotientReachesOne(c: Corpus, s: Corpus, m: real)
    requires m > 0.0 && |s| == |c|
    requires forall i :: 0 <= i < |c| ==> ValidFile(c[i])
    requires IsFoldOf(c, m)
    requires forall i :: 0 <= i < |c| ==> FileMax(s[i]) == Ok(FileMax(c[i]).value / m)
    ensures exists i :: 0 <= i < |s| && FileMax(s[i]).value == 1.0
  {
    var i :| 0 <= i < |c| && FileMax(c[i]).value == m;
    QuotientSelf(m);
    assert FileMax(s[i]) == Ok(m / m);
  }

  lemma FoldOfUnitMaxima(s: Corpus)
    requires forall i :: 0 <= i < |s| ==> FileMax(s[i]).Ok? && FileMax(s[i]).value <= 1.0
    requires exists i :: 0 <= i < |s| && FileMax(s[i]).value == 1.0
    ensures GlobalMax(s) == Ok(1.0)
  {
    GlobalMaxIsFold(s);
    assert IsFoldOf(s, 1.0);
    FoldUnique(s, 1.0, GlobalMax(s).value);
  }

  /**
   * After pass 2 every sample lies in [-1, 1], one of them at -1 or 1, and
   * every trace keeps its length.
   */
  lemma {:induction false} ScaledIntoUnitRange(c: Corpus, m: real)
    requires GlobalMax(c) == Ok(m) && m > 0.0
    ensures BoundsCorpus(ScaleCorpus(c, m), 1.0)
    ensures AttainedInCorpus(ScaleCorpus(c, m), 1.0)
  {
    ScaledGlobalMaxIsOne(c, m);
    GlobalMaxOfSamples(ScaleCorpus(c, m));
  }

  /** Dividing by 1 changes no sample. */
  lemma ScaleByOne(c: Corpus)
    ensures ScaleCorpus(c, 1.0) == c
  {
    var t := ScaleCorpus(c, 1.0);
    forall i | 0 <= i < |c| ensures t[i] == c[i] {
      forall k | 0 <= k < |c[i]| ensures t[i][k] == c[i][k] {
        assert t[i][k] == ScaleTrace(c[i][k], 1.0);
      }
    }
  }

  /**
   * Normalising is idempotent: rescaling the output by its own global
   * maximum, which is 1, leaves every sample unchanged.
   */
  lemma RenormaliseIsIdentity(c: Corpus, m: real)
    requires GlobalMax(c) == Ok(m) && m > 0.0
    ensures GlobalMax(ScaleCorpus(c, m)) == Ok(1.0)
    ensures ScaleCorpus(ScaleCorpus(c, m), 1.0) == ScaleCorpus(c, m)
  {
    ScaledGlobalMaxIsOne(c, m);
    ScaleByOne(ScaleCorpus(c, m));
  }
}
