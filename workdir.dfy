/** The file side of one sweep run in conformer/experiments_revised.py: the
    three temporary manifests are written into the working directory, handed
    to the trainer, and removed once the run has finished. */
module Sweep {
  import opened Manifests

  type Path = string

  const TrainManifestPath: Path := "train_manifest.json"
  const ValManifestPath: Path := "val_manifest.json"
  const TestManifestPath: Path := "test_manifest.json"

  /** The paths a sweep run creates and later deletes. */
  function TempManifests(): (paths: set<Path>)
    ensures |paths| == 3
  {
    DistinctTempManifests();
    {TrainManifestPath, ValManifestPath, TestManifestPath}
  }

  lemma DistinctTempManifests()
    ensures TrainManifestPath != ValManifestPath
    ensures TrainManifestPath != TestManifestPath
    ensures ValManifestPath != TestManifestPath
  {
    assert TrainManifestPath[1] == 'r' && ValManifestPath[1] == 'a' && TestManifestPath[1] == 'e';
  }

  /** Three guarded removals in a row, on any three keys: the map loses the
      three keys, and the keys reported removed are those that were there. */
  lemma RemovedThree<K, V>(m: map<K, V>, a: K, b: K, c: K, ra: bool, rb: bool, rc: bool)
    requires ra == (a in m) && rb == (b in m - {a}) && rc == (c in m - {a} - {b})
    ensures m - {a} - {b} - {c} == m - {a, b, c}
    ensures (if ra then {a} else {}) + (if rb then {b} else {}) + (if rc then {c} else {})
            == m.Keys * {a, b, c}
  {
  }

  /** Files written at three paths and then removed leave no trace. */
  lemma OverwrittenThenRemoved<K, V>(m: map<K, V>, a: K, b: K, c: K, va: V, vb: V, vc: V)
    ensures m[a := va][b := vb][c := vc] - {a, b, c} == m - {a, b, c}
  {
  }

  /** The working directory: every existing file with its text. */
  class WorkingDirectory {
    var files: map<Path, string>

    constructor (existing: map<Path, string>)
      ensures files == existing
    {
      files := existing;
    }

    /** `os.path.exists(path)` */
    predicate Exists(path: Path)
      reads this
    {
      path in files
    }

    /** `os.remove(path)`: deletes the file; on a missing path it raises
        FileNotFoundError (`removed` is false) and nothing changes. */
    method Remove(path: Path) returns (removed: bool)
      modifies this
      ensures removed == (path in old(files))
      ensures files == old(files) - {path}
    {
      removed := path in files;
      files := files - {path};
    }

    /** `write_to_file(data, path)`: opening with 'w' empties the file (or
        creates it), then each record is dumped and followed by a newline.
        No other file changes. */
    method WriteToFile<R>(data: seq<R>, encode: R -> string, path: Path)
      modifies this
      ensures files == old(files)[path := Serialize(data, encode)]
    {
      files := files[path := ""];
      for i := 0 to |data|
        invariant files == old(files)[path := Serialize(data[..i], encode)]
      {
        SerializeAppend(data[..i], data[i], encode);
        assert data[..i + 1] == data[..i] + [data[i]];
        files := files[path := files[path] + encode(data[i]) + "\n"];
      }
      assert data[..|data|] == data;
    }

    /** One guarded removal, `if os.path.exists(path): os.remove(path)`:
        the removal is attempted only when the file exists, so it never
        raises. */
    method RemoveIfExists(path: Path) returns (removed: bool)
      modifies this
      ensures removed == (path in old(files))
      ensures files == old(files) - {path}
    {
      removed := false;
      if Exists(path) {
        removed := Remove(path);
        assert removed;
      }
    }

    /** The cleanup at the end of `sweep_iteration`: each temporary manifest
        is removed if it exists. Afterwards none of the three exists, the
        ones removed are exactly the ones that existed, and no other file is
        touched. */
    method CleanUp() returns (removed: set<Path>)
      modifies this
      ensures removed == old(files).Keys * TempManifests()
      ensures files == old(files) - TempManifests()
    {
      ghost var before := files;
      var train := RemoveIfExists(TrainManifestPath);
      var val := RemoveIfExists(ValManifestPath);
      var test := RemoveIfExists(TestManifestPath);
      removed := (if train then {TrainManifestPath} else {})
               + (if val then {ValManifestPath} else {})
               + (if test then {TestManifestPath} else {});
      RemovedThree(before, TrainManifestPath, ValManifestPath, TestManifestPath, train, val, test);
    }

    /** The manifest part of `sweep_iteration(synthetic_manifest, increment)`
        on already-shuffled record lists: the three manifests are written,
        their texts are what the trainer is pointed at, and the directory
        ends as it began except that the temporary paths no longer exist. */
    method RunSweepIteration<R>(human: seq<R>, synthetic: seq<R>, increment: nat, encode: R -> string)
      returns (runName: string, trainText: string, valText: string, testText: string)
      modifies this
      ensures runName == RunName(increment)
      ensures var m := SweepManifests(human, synthetic, increment);
        && trainText == Serialize(m.train, encode)
        && valText == Serialize(m.val, encode)
        && testText == Serialize(m.test, encode)
      ensures files == old(files) - TempManifests()
    {
      runName := RunName(increment);
      var m := SweepManifests(human, synthetic, increment);
      WriteToFile(m.train, encode, TrainManifestPath);
      WriteToFile(m.val, encode, ValManifestPath);
      WriteToFile(m.test, encode, TestManifestPath);
      trainText, valText, testText := files[TrainManifestPath], files[ValManifestPath], files[TestManifestPath];
      OverwrittenThenRemoved(old(files), TrainManifestPath, ValManifestPath, TestManifestPath, trainText, valText, testText);
      var _ := CleanUp();
    }
  }
}
