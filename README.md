# SGY Scaling, modelled in Dafny

The SGY Scaling tool normalises a folder of SEG-Y seismic files by one
corpus-wide factor. It walks the input folder and keeps every file whose
lower-cased name ends with `.sgy`. In pass 1 it reads each file and folds the
largest absolute sample of every file into a running maximum, `global_max`,
which starts at 0. In pass 2 it reads each file again, replaces the data of
every trace by `data / global_max` and writes the file to the mirrored path
under the output folder. The loudest sample anywhere then has magnitude 1.

This project models that core over real-valued samples:

- `selection.dfy`, module `Selection`: the `.sgy` name test and the nested
  loops over the directory walk that build the list of selected files.
- `global_max.dfy`, module `GlobalMaximum`: the per-file maximum
  (the largest absolute sample over a file's traces), the pass-1 fold and its loop.
  This includes the `ValueError` the per-file maximum raises on a file with no
  traces or with an empty trace. The properties are proved here: the fold is
  non-negative, bounds every sample, is attained by some sample, never
  decreases along the file list and does not depend on the file order.
- `scaling.dfy`, module `Scaling`: pass 2. `Trace` is a class whose `data`
  field the scaling loop reassigns with its quotient by the global maximum.
  The loop over the files builds each stream, scales it and collects what is
  written. The lemmas show that the output keeps every shape, lies in
  [-1, 1], has 1 as its own global maximum, and is unchanged by scaling it
  again.
- `sgy_scaling.dfy`, module `SgyScaling`: the whole script as one method,
  `Run`. It selects, runs pass 1, stops on a raised error, and then runs pass 2.

Inputs the script gets from its environment are parameters. The directory
walk is a sequence of `Listing(root, files)` values in `os.walk` order. What
`read` decodes from each selected path is a function `contents` from paths
to files. A file is a sequence of traces and a trace is a sequence of reals.

What the script does, and does not do, on unusual inputs:

- The script does not filter NaN or infinite samples.
- It does not skip invalid traces and does not isolate failing files.
- An empty file or an empty trace raises `ValueError`, which ends the whole
  run before anything is written. `Run` returns `Raised`.
- A corpus whose samples are all zero is not rejected. The script divides by
  0, and numpy writes NaN for every sample. `Run` returns `WrittenNaN`.
- Rescaling an already scaled corpus by its own global maximum changes
  nothing over the reals: that maximum is 1, and `RenormaliseIsIdentity`
  proves that dividing by it leaves every sample as it is.

## Model

| member | source | states |
|---|---|---|
| `Selection.IsSgyNameIff` | sgy_scaling.py:30 | a name is selected iff it has at least four characters and ends in `.`, `s`/`S`, `g`/`G`, `y`/`Y` |
| `Selection.SelectionExamples` | sgy_scaling.py:30 | `X.SGY`, `Survey.Sgy` and `line_01.sgy` are selected; `x.sgy.bak`, `sgy` and `notes.segy` are not |
| `Selection.KeepIff` | sgy_scaling.py:29-31 | an entry is kept from one folder iff it names that folder, its name is one of the folder's files, and the name passes the test |
| `Selection.SelectedIff` | sgy_scaling.py:28-31 | a path is in `sgy_files` iff some folder of the walk lists its name and the name passes the test |
| `Selection.SelectSgyFiles` | sgy_scaling.py:26-31 | the nested loops build exactly the walk-ordered selection, and every collected name passes the test |
| `GlobalMaximum.TraceMax` | sgy_scaling.py:35 | `abs(tr.data).max()` of a non-empty trace bounds the magnitude of every sample and equals the magnitude of one of them |
| `GlobalMaximum.TracesMax` | sgy_scaling.py:35 | the maximum over the traces of a valid file bounds every sample of the file and is attained by one |
| `GlobalMaximum.FileMax` | sgy_scaling.py:35 | the per-file maximum succeeds iff the file has a trace and no trace is empty; otherwise it raises the empty-stream or the empty-trace error; on success it is non-negative, bounds every sample and is attained |
| `GlobalMaximum.GlobalMaxIsFold` | sgy_scaling.py:33-36 | the fold succeeds iff every file is valid; it is non-negative, at least every per-file maximum, and either 0 or equal to one of them; on failure it carries the error of the first invalid file |
| `GlobalMaximum.GlobalMaxOfSamples` | sgy_scaling.py:33-36 | the global maximum is non-negative, bounds every sample of every file, is 0 or attained by some sample, and is positive iff some sample is non-zero |
| `GlobalMaximum.GlobalMaxMonotone` | sgy_scaling.py:36 | the accumulator never decreases: the fold of a shorter prefix of the file list is at most the fold of a longer one |
| `GlobalMaximum.GlobalMaxOrderIndependent` | sgy_scaling.py:33-36 | for any reordering of the file list, the fold fails for both or for neither, and gives the same value when it succeeds |
| `GlobalMaximum.GlobalMaxPrefixFails` | sgy_scaling.py:34-35 | once a prefix of the file list raises, every longer prefix gives the same error |
| `GlobalMaximum.ComputeGlobalMax` | sgy_scaling.py:33-36 | the pass-1 loop, started from 0, returns the fold; it is 0 for an empty list; it succeeds iff every file is valid, and then is non-negative and bounds every sample; otherwise it carries the error of the first invalid file |
| `Scaling.ScaleTrace` | sgy_scaling.py:48 | a scaled trace keeps its length and each sample becomes the old sample divided by the global maximum |
| `Scaling.ScaleFile` | sgy_scaling.py:47-48 | a scaled file keeps its number of traces and every trace length, and each sample becomes the old one divided by the global maximum |
| `Scaling.ScaleCorpus` | sgy_scaling.py:43-48 | scaling keeps the number of files, of traces per file and of samples per trace, and only divides sample values |
| `Scaling.StreamData` | sgy_scaling.py:57 | defines what is written for a stream, standing in for `stream.write`: one file holding the current data of each of its traces, in stream order |
| `Scaling.NewStream` | sgy_scaling.py:44 | reading a file gives one fresh, distinct trace object per trace, holding that trace's samples |
| `Scaling.ScaleStream` | sgy_scaling.py:47-48 | after the loop, every trace of the stream holds its old data divided by the global maximum |
| `Scaling.ScaleFiles` | sgy_scaling.py:43-57 | the pass-2 loop writes, for every file in list order, the file scaled by the global maximum |
| `Scaling.FileMaxOfScaled` | sgy_scaling.py:47-48 | dividing a valid file by a positive factor divides its per-file maximum by that factor |
| `Scaling.ScaledGlobalMaxIsOne` | sgy_scaling.py:43-48 | scaling by a positive global maximum gives a corpus whose global maximum is exactly 1 |
| `Scaling.ScaledIntoUnitRange` | sgy_scaling.py:43-48 | after pass 2 every sample has magnitude at most 1, so lies in [-1, 1], and some sample has magnitude exactly 1 |
| `Scaling.ScaleByOne` | sgy_scaling.py:48 | dividing every sample by 1 leaves the corpus unchanged |
| `Scaling.RenormaliseIsIdentity` | sgy_scaling.py:43-48 | the output's own global maximum is 1, and scaling the output again by it leaves the output unchanged |
| `SgyScaling.Run` | sgy_scaling.py:25-57 | the run raises iff some selected file is invalid, with the error of the first one; when the global maximum is 0 with files present, every sample is 0 and NaN is written; otherwise the written files are the selected paths in order, each file scaled by the global maximum, every sample in [-1, 1] and, when any file was selected, one at magnitude 1 |

## Left out

- SEG-Y decoding and encoding (obspy's `read` and `stream.write`) are foreign calls. A file's decoded traces are the parameter `contents`. Writing is modelled as collecting the scaled trace data. Headers and byte layout are not modelled.
- Reading the same path in both passes is assumed to give the same traces, because `contents` is a function. A file that changes between the passes is not modelled.
- The directory walk (`os.walk`) is a parameter. `os.makedirs`, `os.path.relpath`, `os.path.join` and the mirrored output path are library path handling and are not modelled. A selected file is the pair of its folder and name, and an output is identified by the input path it came from.
- Exceptions raised by `read`, `stream.write` or `os.makedirs` are not modelled: `contents` is total and writing cannot fail. So a `.sgy` name that is a broken link or not a SEG-Y file, or a write that fails after earlier files were written, is outside the model, and `Run` raises only when a selected file has no trace or an empty trace.
- The progress bars (`tqdm`) and the two `print` calls are not modelled.
- Samples are reals, so IEEE-754 behaviour is not modelled. This covers NaN propagation through `max`, infinite samples, rounding of the division, and overflow of `abs` on integer sample formats.
- Scaling.ScaleStream: requires a positive global maximum. When the maximum is 0, numpy's 0 / 0 gives NaN, which reals cannot represent. `Run` reports that case as `WrittenNaN` instead of scaling.
- Scaling.ScaleStream: requires the trace objects of the stream to be distinct, as those `read` returns are. A stream holding one trace object twice would have it divided twice.
- Selection.IsSgyNameIff: `Lower` maps only A-Z. Python's `str.lower` also maps other letters, but none of them lowercases to `.`, `s`, `g` or `y`. So the selection decision on the last four characters is the same, but `Lower` is not a full model of `str.lower`.
- The worker pool, the barrier between passes, per-file failure isolation, "no valid traces" outcomes and the error report have no code in the script, so they are not modelled.
