/**
 * The file selection of the scaling script: walking the input folder and
 * keeping every file whose lower-cased name ends with ".sgy".
 *
 * The directory walk itself is a parameter: the sequence of (folder, file
 * names) listings that `os.walk` yields, in its order. A selected file is
 * kept as the pair of its folder and name, which `os.path.join` combines.
 */
module Selection {

  /** One step of the walk: a folder and the names of the files directly in it. */
  datatype Listing = Listing(root: string, files: seq<string>)

  /** A selected file: the folder it was listed in and its name. */
  datatype Entry = Entry(root: string, name: string)

  /** Lower-casing of one character: A-Z become a-z, everything else is kept. */
  function LowerChar(ch: char): char {
    if 'A' <= ch <= 'Z' then (ch as int + 32) as char else ch
  }

  /** Lower-casing of a string, exact on the characters that can end a selected name. */
  function Lower(s: string): string {
    seq(|s|, k requires 0 <= k < |s| => LowerChar(s[k]))
  }

  /** The selection test: the lower-cased name ends with ".sgy". */
  predicate IsSgyName(name: string) {
    var lower := Lower(name);
    |lower| >= 4 && lower[|lower| - 4..] == ".sgy"
  }

  /** The test, spelled out character by character: the name ends in a dot
   *  followed by s, g and y, each in either case. */
  lemma IsSgyNameIff(name: string)
    ensures IsSgyName(name) <==>
      && |name| >= 4
      && name[|name| - 4] == '.'
      && name[|name| - 3] in "sS"
      && name[|name| - 2] in "gG"
      && name[|name| - 1] in "yY"
  {
    var lower := Lower(name);
    if |name| >= 4 {
      var n := |name|;
      assert lower[n - 4..] == [lower[n - 4], lower[n - 3], lower[n - 2], lower[n - 1]];
    }
  }

  /** Names from the script's own domain, decided by the test. */
  lemma SelectionExamples()
    ensures IsSgyName("line_01.sgy")
    ensures IsSgyName("X.SGY")
    ensures IsSgyName("Survey.Sgy")
    ensures !IsSgyName("x.sgy.bak")
    ensures !IsSgyName("sgy")
    ensures !IsSgyName("notes.segy")
  {
    IsSgyNameIff("line_01.sgy");
    IsSgyNameIff("X.SGY");
    IsSgyNameIff("Survey.Sgy");
    IsSgyNameIff("x.sgy.bak");
    IsSgyNameIff("sgy");
    IsSgyNameIff("notes.segy");
  }

  /** The selected entries of one folder, in the order of its file names. */
  function Keep(root: string, names: seq<string>): (r: seq<Entry>)
    ensures |r| <= |names|
  {
    if names == [] then []
    else
      var last := names[|names| - 1];
      var front := Keep(root, names[..|names| - 1]);
      if IsSgyName(last) then front + [Entry(root, last)] else front
  }

  /** The entries kept from one folder are exactly those of its names that
   *  pass the test. */
  lemma {:induction false} KeepIff(root: string, names: seq<string>, e: Entry)
    ensures e in Keep(root, names) <==> e.root == root && e.name in names && IsSgyName(e.name)
  {
    if names != [] {
      var front := names[..|names| - 1];
      KeepIff(root, front, e);
      assert e.name in names <==> e.name in front || e.name == names[|names| - 1];
    }
  }

  /** The list `sgy_files` built by the nested loops over the walk. */
  function Selected(walk: seq<Listing>): seq<Entry> {
    if walk == [] then []
    else
      var last := walk[|walk| - 1];
      Selected(walk[..|walk| - 1]) + Keep(last.root, last.files)
  }

  /** An entry is selected iff the walk lists its name in its folder and the
   *  name passes the test. */
  lemma {:induction false} SelectedIff(walk: seq<Listing>, e: Entry)
    ensures e in Selected(walk) <==>
      IsSgyName(e.name) &&
      exists i :: 0 <= i < |walk| && walk[i].root == e.root && e.name in walk[i].files
  {
    if walk != [] {
      var front := walk[..|walk| - 1];
      SelectedIff(front, e);
      assert forall i :: 0 <= i < |front| ==> front[i] == walk[i];
      var last := walk[|walk| - 1];
      KeepIff(last.root, last.files, e);
      if e in Keep(last.root, last.files) {
        assert walk[|walk| - 1].root == e.root && e.name in walk[|walk| - 1].files;
      }
    }
  }

  /** Lines 26-31 of the script: collect the selected files while walking. */
  method SelectSgyFiles(walk: seq<Listing>) returns (sgyFiles: seq<Entry>)
    ensures sgyFiles == Selected(walk)
    ensures forall e :: e in sgyFiles ==> IsSgyName(e.name)
  {
    sgyFiles := [];
    for i := 0 to |walk|
      invariant sgyFiles == Selected(walk[..i])
    {
      var root, files := walk[i].root, walk[i].files;
      ghost var before := sgyFiles;
      for j := 0 to |files|
        invariant sgyFiles == before + Keep(root, files[..j])
      {
        assert files[..j + 1][..j] == files[..j];
        if IsSgyName(files[j]) {
          sgyFiles := sgyFiles + [Entry(root, files[j])];
        }
      }
      assert files[..|files|] == files;
      assert walk[..i + 1][..i] == walk[..i];
    }
    assert walk[..|walk|] == walk;
    forall e | e in sgyFiles ensures IsSgyName(e.name) {
      SelectedIff(walk, e);
    }
  }
}
