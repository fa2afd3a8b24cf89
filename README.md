# Synthetic speech data: dataset splitting, manifests and output naming

This project models the self-contained logic of two scripts, written in Dafny.

- **The conformer fine-tuning sweep** (`conformer/experiments_revised.py`). The
  human and synthetic record lists arrive already shuffled. `data_split` cuts a
  list into train, validation and test slices from two fractions. Each sweep run
  assembles its training manifest from the first 70% of the human records plus a
  prefix of the synthetic records. Validation and test are the human records
  between the 70% and 85% cuts and after the 85% cut. `write_to_file` writes each
  manifest as one encoded record per line. The run is named
  `conformer_<10·increment>`. The three temporary manifests are deleted at the
  end of the run.
- **The batch text-to-speech driver** (`app/main.py`).
  `extract_language_and_accent` splits a voice string such as
  `de-DE-KatjaNeural` on `'-'` and keeps the first two fields. The row loop
  numbers rows from 1. For each row it requests synthesis of the row's text
  into `output/<index>_<language>_<accent>.wav`.

Modules:

- `Strings` (strings.dfy) models Python's `str.find`, `str.split` and `join`
  on a one-character separator.
- `Decimal` (decimal.dfy) models `str(n)` for a non-negative integer and its
  parser.
- `Manifests` (manifests.dfy) holds the pure part of the sweep:
  - fractions and `int(n * f)`;
  - Python slicing;
  - `data_split` and the sweep manifests;
  - the manifest text and reading it back;
  - the run name.
- `Sweep` (workdir.dfy) holds the stateful part of a sweep run. The class
  `WorkingDirectory` holds a map from path to file text. `write_to_file`,
  `os.remove` and the cleanup are methods that update that map.
- `Synthesis` (synthesis.dfy) holds the voice parsing, the output names and
  the row loop.

Fractions such as 0.7 are exact non-negative rationals. `int(n * f)` is the
floor of `n * f`, because `int()` truncates toward zero and the product is
never negative. Records are an opaque type parameter. The JSON encoding is
passed in as a function from record to string. The model also covers Python's
slice clamping: a bound past the end is cut back to the length, and crossed
bounds give an empty slice.

## Model

| member | source | states |
|---|---|---|
| `Strings.Split` | app/main.py:47 | `str.split('-')` returns at least one part, and no part contains the separator. There is exactly one part iff the separator does not occur. The first part is the text before the first separator. |
| `Strings.JoinSplit` | app/main.py:47 | Joining the parts of a split with the separator gives back the original string. |
| `Strings.SplitJoin` | app/main.py:47 | Splitting a join of separator-free parts gives back the parts. |
| `Strings.SplitAfterPrefix` | app/main.py:47 | Splitting `p + sep + t`, where `p` has no separator, gives `[p]` followed by the split of `t`. |
| `Decimal.FormatNat` | conformer/experiments_revised.py:68 | The decimal rendering is non-empty, contains only digits and has no leading zero. |
| `Decimal.ParseFormat` | app/main.py:94 | Parsing the decimal rendering of `n` gives `n`. |
| `Decimal.FormatInjective` | app/main.py:94 | Two numbers have the same decimal rendering iff they are equal. |
| `Manifests.TruncatedProduct` | conformer/experiments_revised.py:21-22 | `int(n * f)` is the unique `c` with `c·den <= n·num < (c+1)·den`, i.e. the floor of `n·f`. |
| `Manifests.TruncatedSumBound` | conformer/experiments_revised.py:20-26 | If `tf + vf <= 1`, then `int(n·tf) + int(n·vf) <= n`. |
| `Manifests.TruncatedMonotone` | conformer/experiments_revised.py:89-90 | A larger fraction never gives a smaller truncated count, so the 0.7 cut is never past the 0.85 cut. |
| `Manifests.Slice` | conformer/experiments_revised.py:24-26 | `s[lo:hi]` clamps both bounds to `len(s)`. Its length is the clamped difference, or 0 if the clamped bounds cross. Element `k` is `s[min(lo, len) + k]`. |
| `Manifests.SliceCover` | conformer/experiments_revised.py:24-26 | `s[:i] + s[i:j] + s[j:] == s` whenever `i <= j`, with or without clamping. |
| `Manifests.DataSplit` | conformer/experiments_revised.py:19-28 | `data_split` takes the clamped slices `data[:t]`, `data[t:t+v]` and `data[t+v:]`, where `t = int(n·tf)` and `v = int(n·vf)`. Its contract: train, val and test put back together give the input. Prefix, block and suffix form are in `DataSplitPartitions`, and the sizes in `DataSplitSizes`. |
| `Manifests.DataSplitPartitions` | conformer/experiments_revised.py:24-26 | For any fractions, `train + val + test` equals the input exactly. Train is a prefix, test is a suffix, and val is the contiguous block between them. |
| `Manifests.DataSplitSizes` | conformer/experiments_revised.py:20-26 | If `tf + vf <= 1`, the sizes are `floor(n·tf)`, `floor(n·vf)` and `n` minus both. |
| `Manifests.BaselineTestSet` | conformer/experiments_revised.py:42 | The baseline's test set is the test slice of `data_split(human, 0.7, 0.15)`. It is a suffix of the human list. `BaselineTestDiffersFromSweepTest` compares it with the sweep's. |
| `Manifests.AssembleManifests` | conformer/experiments_revised.py:89-94 | The three manifests for a given synthetic part: `human[:int(0.7n)]` plus that part, then `human[int(0.7n):int(0.85n)]`, then `human[int(0.85n):]`. Its contract: train ends with the synthetic part, and val and test together hold at most the human records. The exact slices, sizes and record conservation are in `AssembleManifestsPartitions`. |
| `Manifests.AssembleManifestsPartitions` | conformer/experiments_revised.py:89-94 | Train is `human[:int(0.7n)]` followed by the synthetic part. Val is `human[int(0.7n):int(0.85n)]` and test is `human[int(0.85n):]`. The human part of train, val and test partition the human list in order, so val and test hold no synthetic records. The sizes are the cuts and the remainder. The three manifests together hold the same records, with multiplicity, as the human list plus the synthetic part. |
| `Manifests.SyntheticPrefixAsWritten` | conformer/experiments_revised.py:92 | Line 92 as written: `synthetic[:k·len(synthetic)]`. The result is a prefix of the synthetic list. What it actually takes is in `SyntheticPrefixAsWrittenAllOrNothing`. |
| `Manifests.SyntheticPrefixAsWrittenAllOrNothing` | conformer/experiments_revised.py:92 | As written, `synthetic[:k·len(synthetic)]` is empty for k = 0 and is the whole synthetic list for every k >= 1. |
| `Manifests.SyntheticPrefix` | conformer/experiments_revised.py:92 | The corrected line 92: `synthetic[:int(k/10·len(synthetic))]`. The result is a prefix of the synthetic list. Its size, its ends at 0 and 10, and monotonicity in `k` are in `SyntheticPrefixProportion`. |
| `Manifests.SyntheticPrefixProportion` | conformer/experiments_revised.py:92 | For the corrected prefix and 0 <= k <= 10, the prefix length `c` satisfies `10c <= k·m < 10(c+1)` (k tenths of m, rounded down). It is taken from the front of the list. It is empty at 0 and the whole list at 10, and a larger k only extends it. |
| `Manifests.SweepManifestsAsWritten` | conformer/experiments_revised.py:89-94 | The manifests of `sweep_iteration` with line 92 as written. Validation and test do not depend on the synthetic records or the increment: they equal those of a run without synthetic data. |
| `Manifests.SweepManifests` | conformer/experiments_revised.py:89-94 | The manifests with the corrected line 92. Validation and test again equal those of a run without synthetic data, so every sweep run evaluates on the same records. |
| `Manifests.SweepAsWrittenExample` | conformer/experiments_revised.py:89-94 | With 100 human records, 50 synthetic records and increment 5, the code as written gives 120/15/15 records. |
| `Manifests.SweepExample` | conformer/experiments_revised.py:89-94 | With the same inputs and the proportional prefix, the sizes are 95/15/15. |
| `Manifests.BaselineTestDiffersFromSweepTest` | conformer/experiments_revised.py:42 | The baseline's `data_split` test slice and the sweep's test slice differ. With 5 human records the baseline tests on 2 and each sweep run tests on 1. |
| `Manifests.Serialize` | conformer/experiments_revised.py:97-101 | The text `write_to_file` leaves: each record's encoding followed by `'\n'`. The text is at least one character per record, and it ends in `'\n'` when there is any record. The line structure is in `SerializeLines`. |
| `Manifests.SerializeAppend` | conformer/experiments_revised.py:99-101 | Writing one more record appends exactly its encoding and a newline. |
| `Manifests.SerializeLines` | conformer/experiments_revised.py:97-101 | If no encoding contains a newline, the written text has one line per record, in input order. Line `k` is the encoding of record `k` followed by `'\n'`. |
| `Manifests.Lines` | conformer/experiments_revised.py:79-80 | Iterating over a text file. There are no lines exactly when the text is empty. Every line is non-empty, and only its last character can be `'\n'`. |
| `Manifests.ReadManifest` | conformer/experiments_revised.py:79-83 | `[json.loads(line) for line in f]` decodes one record per line of the file. `ManifestRoundTrip` shows it inverts `write_to_file`. |
| `Manifests.ManifestRoundTrip` | conformer/experiments_revised.py:79-83 | Reading a written manifest back line by line with a decoder that inverts the encoder gives the same records in the same order. |
| `Manifests.RunName` | conformer/experiments_revised.py:68 | The run name `conformer_{increment * 10}` starts with `conformer_` and has more after it. The decimal part and injectivity are in `RunNameShape`. |
| `Manifests.RunNameShape` | conformer/experiments_revised.py:68 | The run name is `conformer_` followed by the decimal of `increment·10`. Different increments give different names. |
| `Sweep.TempManifests` | conformer/experiments_revised.py:103-105 | The three temporary manifest paths are pairwise distinct. |
| `Sweep.WorkingDirectory.Exists` | conformer/experiments_revised.py:131 | `os.path.exists(path)` is true exactly when the path is a key of the directory's `files` map. It is the guard of `RemoveIfExists`. |
| `Sweep.WorkingDirectory.Remove` | conformer/experiments_revised.py:132 | `os.remove` deletes the path and changes nothing else. It fails (FileNotFoundError) exactly when the path does not exist. |
| `Sweep.WorkingDirectory.WriteToFile` | conformer/experiments_revised.py:97-101 | Afterwards the file at `path` holds exactly the serialised records, whatever it held before. No other file changes. |
| `Sweep.WorkingDirectory.RemoveIfExists` | conformer/experiments_revised.py:131-132 | The existence check guards the removal, so it never fails. Afterwards the path does not exist and nothing else has changed. |
| `Sweep.WorkingDirectory.CleanUp` | conformer/experiments_revised.py:131-136 | Afterwards none of the three temporary manifests exists. The paths removed are exactly those of the three that existed. No other path is touched. |
| `Sweep.WorkingDirectory.RunSweepIteration` | conformer/experiments_revised.py:103-136 | Returns the run name and the texts of the three manifests the trainer is given: the serialised train, val and test of the corrected `SweepManifests`, not line 92 as written. With 100 human and 50 synthetic records at increment 5, that is 95 training records; as written it would be 120. Afterwards the directory is as it began, minus the temporary paths. The `files` map does not hold the model saved by `model.save_to` (line 128) or the checkpoint files. |
| `Synthesis.ExtractLanguageAndAccent` | app/main.py:46-50 | `extract_language_and_accent` returns the first two fields of `voice.split('-')`, or IndexError. Its contract: the result is IndexError exactly when the voice has no `'-'`, and a parsed language and accent contain no `'-'`. The exact fields are in `ExtractFields`. |
| `Synthesis.ExtractFields` | app/main.py:46-50 | Parsing raises IndexError iff the voice has no `'-'`. Otherwise the language is the text before the first `'-'`. The accent is the text between the first and second `'-'`, or to the end if there is no second one. Neither contains `'-'`. |
| `Synthesis.ExtractIgnoresTail` | app/main.py:47-50 | `language-accent-anything` and `language-accent` both parse to exactly that language and accent, so everything after the second `'-'` is ignored. |
| `Synthesis.OutputFileName` | app/main.py:94 | `f"{index}_{language}_{accent}.wav"` is longer than four characters and ends in `.wav`. That the leading digits give back the index is in `OutputFileNameIndex`. |
| `Synthesis.OutputPath` | app/main.py:95 | `os.path.join("output", name)` is `output`, a `'/'`, and the name, so the name can be read back from the path. |
| `Synthesis.OutputFileNameIndex` | app/main.py:94 | The text before the first `'_'` of an output file name consists of digits and parses to the row index. The name ends in `.wav`. |
| `Synthesis.OutputPathsDistinct` | app/main.py:94-95 | Different row indices give different output paths, whatever the languages and accents. |
| `Synthesis.RequestFor` | app/main.py:90-96 | The loop body for one numbered row. It makes a request exactly when the voice contains `'-'`. The request carries the row's text and a path in `output`. The voice argument and exact path are in `RequestForRow`. |
| `Synthesis.RequestForRow` | app/main.py:90-96 | A row gets a request iff its voice contains `'-'`. The request carries the row's text and the path `output/<index>_<language>_<accent>.wav`. The voice argument is the bare language (the text before the first `'-'`), which is never the full voice string. |
| `Synthesis.RequestPathsDistinct` | app/main.py:89-96 | Requests for different row numbers never share an output path. |
| `Synthesis.SynthesizeRows` | app/main.py:89-96 | Rows are numbered from 1, and request `k` is the one for row `k + 1`. All output paths are distinct. The first row whose voice has no `'-'` ends the loop with its number reported, after the requests for all earlier rows. |

## Findings

| source | as written | input that shows it | evidently intended | confidence | as-written member | corrected member |
|---|---|---|---|---|---|---|
| conformer/experiments_revised.py:92 | `synthetic_data[:synthetic_data_increment * len(synthetic_data)]`: slicing clamps, so increment 0 adds nothing and every increment from 1 to 10 adds the whole synthetic list. Ten of the eleven sweep runs then train on the same data. | 100 human and 50 synthetic records, increment 5: 120 training records instead of 70 + 25 = 95. | `increment` tenths of the synthetic list, `synthetic_data[:int(increment / 10 * len(synthetic_data))]`. The run name `conformer_{increment * 10}` reads as a percentage. | high; not executed | `Manifests.SyntheticPrefixAsWrittenAllOrNothing` | `Manifests.SyntheticPrefixProportion` |

`Manifests.SweepManifestsAsWritten` models the code as written, and
`Manifests.SweepAsWrittenExample` shows the 120 records. The corrected
`Manifests.SweepManifests` is proved proportional (`Manifests.SweepExample`
gives 95 records). `Sweep.WorkingDirectory.RunSweepIteration` uses the
corrected manifests. The partition lemma `AssembleManifestsPartitions` holds
for both, because it holds for any synthetic part.

Other behaviour the model exposes but does not change:

- **The baseline test set.** The baseline run builds its test set with
  `data_split(human, 0.7, 0.15)`, cutting at `int(0.7n) + int(0.15n)`. The sweep
  cuts at `int(0.85n)`. These differ for some sizes (five records:
  `BaselineTestDiffersFromSweepTest`), so the baseline is not always
  evaluated on the sweep's test set.
- **The synthesis voice.** `synthesize_speech` is called with the bare
  language (`de`), not the voice string (`de-DE-KatjaNeural`). The accent and
  speaker are parsed but never select a voice. `RequestForRow` states this as
  the code does it.

## Left out

- Azure Speech SDK calls, speech configuration, result and cancellation
  reporting, and loading `settings.json`. These are a foreign service and
  console output. A request is the argument triple of `synthesize_speech`, and
  the loop goes on whatever the service answers.
- The audio-duration computation in `synthesize_speech`. It is float
  arithmetic whose result is never used.
- CSV reading and the creation of the output directory. Rows are given as a
  sequence of (text, voice) pairs.
- NeMo model loading, training and testing, the wandb logging, checkpointing
  and model saving. These are framework calls. The model path's timestamp
  (`datetime.now()`) is left out with them.
- `random.seed` / `random.shuffle`. The record lists are taken as already
  shuffled inputs, so the fixed-seed determinism is not modelled.
- IEEE double arithmetic. `0.7 * n`, `0.85 * n` and `0.15 * n` are exact
  rationals here, so the model does not capture a double product rounding
  across an integer.
- `json.dump` / `json.loads`. These are opaque encode and decode parameters.
  The round trip assumes an encoding without raw newlines and a decoder that
  inverts it on a line with its newline.
- Negative fractions and negative increments. Python would truncate toward
  zero and index from the end, but the script only uses 0.7, 0.15, 0.85 and
  increments 0 to 10.
- `baseline_iteration` apart from its test slice, and the two top-level loops
  over increments 0 to 10. These only sequence the runs.
- Universal newlines. Python's text mode also ends a line at `'\r'` and
  at `"\r\n"`. `Lines` ends lines only at `'\n'`, so `ManifestRoundTrip` also
  admits encodings that hold a raw `'\r'`. `json.dump` never writes one, so
  the manifests themselves are unaffected.
- Model artifacts. The model file written by `model.save_to` and the
  checkpoint files are not in the `files` map of `WorkingDirectory`.
- Exceptions that abort a run (missing manifest file, framework errors).
  Only the IndexError of voice parsing and the FileNotFoundError of
  `os.remove` are modelled.
