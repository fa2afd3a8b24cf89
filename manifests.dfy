/** Dataset partitioning and manifest assembly of the conformer sweep
    (conformer/experiments_revised.py): the record lists are already
    shuffled, so everything here is slicing and concatenation of sequences.
    Records are opaque: the type parameter `R`. */
module Manifests {
  import opened Strings
  import opened Decimal

  // ---------------------------------------------------------------------
  // Fractions and `int(n * f)`
  // ---------------------------------------------------------------------

  datatype Ratio = Ratio(num: nat, den: nat)

  /** A non-negative rational standing for a float constant such as 0.7. */
  type Fraction = r: Ratio | r.den > 0 witness Ratio(0, 1)

  /** `int(n * f)`: Python's `int()` truncates toward zero, which on a
      non-negative product is the floor. */
  function TruncatedProduct(n: nat, f: Fraction): (c: nat)
    ensures c * f.den <= n * f.num < (c + 1) * f.den
  {
    n * f.num / f.den
  }

  /** `a + b <= 1`, cross-multiplied. */
  predicate AtMostOne(a: Fraction, b: Fraction)
  {
    a.num * b.den + b.num * a.den <= a.den * b.den
  }

  /** `a <= b`, cross-multiplied. */
  predicate NotAbove(a: Fraction, b: Fraction)
  {
    a.num * b.den <= b.num * a.den
  }

  lemma MulMonotone(x: nat, y: nat, z: nat)
    requires x <= y
    ensures x * z <= y * z
  {
  }

  lemma MulDistributes(x: int, y: int, z: int)
    ensures (x + y) * z == x * z + y * z
  {
  }

  lemma MulRotates(x: int, y: int, z: int)
    ensures (x * y) * z == x * (y * z) == (x * z) * y
  {
  }

  /** Cancelling a positive factor from both sides of `<=`. */
  lemma CancelPositive(s: nat, n: nat, d: nat)
    requires d > 0
    requires s * d <= n * d
    ensures s <= n
  {
    if s > n {
      MulMonotone(n + 1, s, d);
      MulDistributes(n, 1, d);
    }
  }

  /** Cancelling a factor from both sides of `<`. */
  lemma CancelStrict(s: nat, n: nat, d: nat)
    requires s * d < n * d
    ensures s < n
  {
    if s >= n {
      MulMonotone(n, s, d);
    }
  }

  /** The arithmetic behind `TruncatedSumBound`, on plain numbers: if
      `x <= n·an/ad`, `y <= n·bn/bd` and `an/ad + bn/bd <= 1`, then
      `x + y <= n`. */
  lemma ScaledSumBound(x: nat, y: nat, n: nat, an: nat, ad: nat, bn: nat, bd: nat)
    requires ad > 0 && bd > 0
    requires x * ad <= n * an && y * bd <= n * bn
    requires an * bd + bn * ad <= ad * bd
    ensures x + y <= n
  {
    var d := ad * bd;
    assert x * d <= (n * an) * bd by {
      MulMonotone(x * ad, n * an, bd);
      MulRotates(x, ad, bd);
    }
    assert y * d <= (n * bn) * ad by {
      MulMonotone(y * bd, n * bn, ad);
      MulRotates(y, bd, ad);
    }
    assert (n * an) * bd + (n * bn) * ad <= n * d by {
      MulRotates(n, an, bd);
      MulRotates(n, bn, ad);
      MulMonotone(an * bd + bn * ad, d, n);
      MulDistributes(an * bd, bn * ad, n);
    }
    assert (x + y) * d <= n * d by {
      MulDistributes(x, y, d);
    }
    CancelPositive(x + y, n, d);
  }

  /** Two truncated shares of `n` whose fractions sum to at most one sum to at
      most `n`. */
  lemma TruncatedSumBound(n: nat, a: Fraction, b: Fraction)
    requires AtMostOne(a, b)
    ensures TruncatedProduct(n, a) + TruncatedProduct(n, b) <= n
  {
    ScaledSumBound(TruncatedProduct(n, a), TruncatedProduct(n, b), n, a.num, a.den, b.num, b.den);
  }

  /** The arithmetic behind `TruncatedMonotone`, on plain numbers: if
      `x <= n·an/ad`, `n·bn/bd < y + 1` and `an/ad <= bn/bd`, then `x <= y`. */
  lemma ScaledMonotone(x: nat, y: nat, n: nat, an: nat, ad: nat, bn: nat, bd: nat)
    requires ad > 0 && bd > 0
    requires x * ad <= n * an && n * bn < (y + 1) * bd
    requires an * bd <= bn * ad
    ensures x <= y
  {
    var d := ad * bd;
    var lower := (n * an) * bd;
    var upper := (n * bn) * ad;
    assert x * d <= lower by {
      MulMonotone(x * ad, n * an, bd);
      MulRotates(x, ad, bd);
    }
    assert lower <= upper by {
      MulMonotone(an * bd, bn * ad, n);
      MulRotates(n, an, bd);
      MulRotates(n, bn, ad);
    }
    assert upper < (y + 1) * d by {
      MulMonotone(n * bn + 1, (y + 1) * bd, ad);
      MulDistributes(n * bn, 1, ad);
      MulRotates(y + 1, bd, ad);
    }
    CancelStrict(x, y + 1, d);
  }

  /** A larger fraction never truncates to a smaller count. */
  lemma TruncatedMonotone(n: nat, a: Fraction, b: Fraction)
    requires NotAbove(a, b)
    ensures TruncatedProduct(n, a) <= TruncatedProduct(n, b)
  {
    ScaledMonotone(TruncatedProduct(n, a), TruncatedProduct(n, b), n, a.num, a.den, b.num, b.den);
  }

  // ---------------------------------------------------------------------
  // Python slicing with non-negative bounds
  // ---------------------------------------------------------------------

  function Min(a: nat, b: nat): nat
  {
    if a <= b then a else b
  }

  /** `s[lo:hi]`: both bounds are clamped to `|s|`, and a slice whose clamped
      bounds cross is empty. */
  function Slice<T>(s: seq<T>, lo: nat, hi: nat): (r: seq<T>)
    ensures |r| == if Min(lo, |s|) <= Min(hi, |s|) then Min(hi, |s|) - Min(lo, |s|) else 0
    ensures forall k :: 0 <= k < |r| ==> r[k] == s[Min(lo, |s|) + k]
  {
    var l, h := Min(lo, |s|), Min(hi, |s|);
    if l <= h then s[l..h] else []
  }

  /** `s[:k]` */
  function Take<T>(s: seq<T>, k: nat): seq<T>
  {
    Slice(s, 0, k)
  }

  /** `s[k:]` */
  function Drop<T>(s: seq<T>, k: nat): seq<T>
  {
    Slice(s, k, |s|)
  }

  /** `s[:i] + s[i:j] + s[j:]` is `s` whenever `i <= j`, clamped or not. */
  lemma SliceCover<T>(s: seq<T>, i: nat, j: nat)
    requires i <= j
    ensures Take(s, i) + Slice(s, i, j) + Drop(s, j) == s
  {
    var n := |s|;
    var a, b := Min(i, n), Min(j, n);
    assert Take(s, i) == s[..a];
    assert Slice(s, i, j) == s[a..b];
    assert Drop(s, j) == s[b..];
    assert s[..a] + s[a..b] + s[b..] == s;
  }

  // ---------------------------------------------------------------------
  // data_split
  // ---------------------------------------------------------------------

  /** Three slices of one list. */
  datatype Partition<R> = Partition(train: seq<R>, val: seq<R>, test: seq<R>)

  /** `data_split(data, train_percent, val_percent)`. */
  function DataSplit<R>(data: seq<R>, trainFraction: Fraction, valFraction: Fraction): (p: Partition<R>)
    ensures p.train + p.val + p.test == data
  {
    var trainCount := TruncatedProduct(|data|, trainFraction);
    var valCount := TruncatedProduct(|data|, valFraction);
    SliceCover(data, trainCount, trainCount + valCount);
    Partition(Take(data, trainCount),
              Slice(data, trainCount, trainCount + valCount),
              Drop(data, trainCount + valCount))
  }

  /** Whatever the fractions, the three slices put back together are the
      input: train is a prefix, test a suffix, val the block between them. */
  lemma DataSplitPartitions<R>(data: seq<R>, trainFraction: Fraction, valFraction: Fraction)
    ensures var p := DataSplit(data, trainFraction, valFraction);
      && p.train + p.val + p.test == data
      && p.train == data[..|p.train|]
      && p.val == data[|p.train|..|p.train| + |p.val|]
      && p.test == data[|data| - |p.test|..]
  {
    var trainCount := TruncatedProduct(|data|, trainFraction);
    var valCount := TruncatedProduct(|data|, valFraction);
    SliceCover(data, trainCount, trainCount + valCount);
    var p := DataSplit(data, trainFraction, valFraction);
    assert data[..|p.train|] == p.train;
    assert data[|p.train|..][..|p.val|] == p.val;
  }

  /** When the two fractions sum to at most one, no slice is clamped:
      the sizes are the two truncated products and the remainder. */
  lemma DataSplitSizes<R>(data: seq<R>, trainFraction: Fraction, valFraction: Fraction)
    requires AtMostOne(trainFraction, valFraction)
    ensures var p := DataSplit(data, trainFraction, valFraction);
      && |p.train| == TruncatedProduct(|data|, trainFraction)
      && |p.val| == TruncatedProduct(|data|, valFraction)
      && |p.test| == |data| - |p.train| - |p.val|
  {
    TruncatedSumBound(|data|, trainFraction, valFraction);
  }

  /** The module constants `train_percent = 0.7` and `val_percent = 0.15`. */
  const TrainPercent: Fraction := Ratio(70, 100)
  const ValPercent: Fraction := Ratio(15, 100)

  /** The test slice the baseline run evaluates on. */
  function BaselineTestSet<R>(human: seq<R>): (test: seq<R>)
    ensures |test| <= |human| && test == human[|human| - |test|..]
  {
    DataSplitPartitions(human, TrainPercent, ValPercent);
    DataSplit(human, TrainPercent, ValPercent).test
  }

  // ---------------------------------------------------------------------
  // sweep_iteration: the three manifests
  // ---------------------------------------------------------------------

  /** `int(0.7 * len(human_data))` and `int(0.85 * len(human_data))`. */
  const SweepTrainCut: Fraction := Ratio(70, 100)
  const SweepValCut: Fraction := Ratio(85, 100)

  /** The three manifests of one sweep run, given the human records and
      the synthetic records appended to training. */
  function AssembleManifests<R>(human: seq<R>, synthetic: seq<R>): (p: Partition<R>)
    ensures |p.train| >= |synthetic| && p.train[|p.train| - |synthetic|..] == synthetic
    ensures |p.val| + |p.test| <= |human|
  {
    var trainSplit := TruncatedProduct(|human|, SweepTrainCut);
    var valSplit := TruncatedProduct(|human|, SweepValCut);
    Partition(Take(human, trainSplit) + synthetic,
              Slice(human, trainSplit, valSplit),
              Drop(human, valSplit))
  }

  /** Training holds the first 70% of the human records followed by the
      synthetic ones; the human part, val and test partition the human list
      in order, so val and test hold human records only; the sizes are the
      two cuts and the remainder. */
  lemma AssembleManifestsPartitions<R>(human: seq<R>, synthetic: seq<R>)
    ensures var p := AssembleManifests(human, synthetic);
      var n := |human|;
      var trainSplit := TruncatedProduct(n, SweepTrainCut);
      var valSplit := TruncatedProduct(n, SweepValCut);
      && trainSplit <= valSplit <= n
      && p.train == human[..trainSplit] + synthetic
      && p.val == human[trainSplit..valSplit]
      && p.test == human[valSplit..]
      && human[..trainSplit] + p.val + p.test == human
      && |p.train| == trainSplit + |synthetic|
      && |p.val| == valSplit - trainSplit
      && |p.test| == n - valSplit
      && multiset(p.train) + multiset(p.val) + multiset(p.test)
         == multiset(human) + multiset(synthetic)
  {
    var n := |human|;
    var trainSplit := TruncatedProduct(n, SweepTrainCut);
    var valSplit := TruncatedProduct(n, SweepValCut);
    TruncatedMonotone(n, SweepTrainCut, SweepValCut);
    TruncatedMonotone(n, SweepValCut, Ratio(1, 1));
    var p := AssembleManifests(human, synthetic);
    assert p.train == human[..trainSplit] + synthetic;
    assert p.val == human[trainSplit..valSplit];
    assert p.test == human[valSplit..];
    assert human[..trainSplit] + p.val + p.test == human by {
      assert human == human[..trainSplit] + human[trainSplit..valSplit] + human[valSplit..];
    }
    calc {
      multiset(p.train) + multiset(p.val) + multiset(p.test);
      == multiset(human[..trainSplit]) + multiset(synthetic) + multiset(p.val) + multiset(p.test);
      == multiset(human[..trainSplit] + p.val + p.test) + multiset(synthetic);
      == multiset(human) + multiset(synthetic);
    }
  }

  /** The synthetic prefix as line 92 writes it: `synthetic[:k * len(synthetic)]`. */
  function SyntheticPrefixAsWritten<R>(synthetic: seq<R>, increment: nat): (r: seq<R>)
    ensures r <= synthetic
  {
    Take(synthetic, increment * |synthetic|)
  }

  /** Because slicing clamps, increment 0 adds nothing and every increment
      from 1 on adds the whole synthetic list: no proportion is taken. */
  lemma SyntheticPrefixAsWrittenAllOrNothing<R>(synthetic: seq<R>, increment: nat)
    ensures SyntheticPrefixAsWritten(synthetic, increment)
            == if increment == 0 then [] else synthetic
  {
    if increment >= 1 {
      MulMonotone(1, increment, |synthetic|);
    }
  }

  /** The evident intent: `increment` tenths of the synthetic list,
      `synthetic[:int(increment / 10 * len(synthetic))]`. */
  function SyntheticPrefix<R>(synthetic: seq<R>, increment: nat): (r: seq<R>)
    ensures r <= synthetic
  {
    Take(synthetic, TruncatedProduct(|synthetic|, Ratio(increment, 10)))
  }

  /** For increments 0..10 the corrected prefix is exactly
      `floor(increment * m / 10)` synthetic records taken from the front, it
      is empty at 0 and the whole list at 10, and a larger increment only
      extends a smaller one's prefix. */
  lemma SyntheticPrefixProportion<R>(synthetic: seq<R>, increment: nat, larger: nat)
    requires increment <= larger <= 10
    ensures var r := SyntheticPrefix(synthetic, increment);
      && |r| * 10 <= increment * |synthetic| < (|r| + 1) * 10
      && r == synthetic[..|r|]
      && (increment == 0 ==> r == [])
      && (increment == 10 ==> r == synthetic)
      && r <= SyntheticPrefix(synthetic, larger)
  {
    var m := |synthetic|;
    var c := TruncatedProduct(m, Ratio(increment, 10));
    MulMonotone(increment, 10, m);
    CancelPositive(c, m, 10);
    TruncatedMonotone(m, Ratio(increment, 10), Ratio(larger, 10));
    var c' := TruncatedProduct(m, Ratio(larger, 10));
    MulMonotone(larger, 10, m);
    CancelPositive(c', m, 10);
  }

  /** The manifests of `sweep_iteration(_, increment)` as the code is written.
      Validation and test do not depend on the synthetic records or the
      increment: they are those of a run without synthetic data. */
  function SweepManifestsAsWritten<R>(human: seq<R>, synthetic: seq<R>, increment: nat): (p: Partition<R>)
    ensures p.val == AssembleManifests(human, []).val
    ensures p.test == AssembleManifests(human, []).test
  {
    AssembleManifests(human, SyntheticPrefixAsWritten(synthetic, increment))
  }

  /** The manifests with the proportional synthetic prefix; as above,
      validation and test are those of a run without synthetic data. */
  function SweepManifests<R>(human: seq<R>, synthetic: seq<R>, increment: nat): (p: Partition<R>)
    ensures p.val == AssembleManifests(human, []).val
    ensures p.test == AssembleManifests(human, []).test
  {
    AssembleManifests(human, SyntheticPrefix(synthetic, increment))
  }

  /** 100 human and 50 synthetic records at increment 5: as written, training
      takes all 50 synthetic records (120 in all), not 25. */
  lemma SweepAsWrittenExample<R>(human: seq<R>, synthetic: seq<R>)
    requires |human| == 100 && |synthetic| == 50
    ensures var p := SweepManifestsAsWritten(human, synthetic, 5);
      |p.train| == 120 && |p.val| == 15 && |p.test| == 15
  {
    AssembleManifestsPartitions(human, SyntheticPrefixAsWritten(synthetic, 5));
    SyntheticPrefixAsWrittenAllOrNothing(synthetic, 5);
  }

  /** The same inputs with the proportional prefix: 70 + 25 training records. */
  lemma SweepExample<R>(human: seq<R>, synthetic: seq<R>)
    requires |human| == 100 && |synthetic| == 50
    ensures var p := SweepManifests(human, synthetic, 5);
      |p.train| == 95 && |p.val| == 15 && |p.test| == 15
  {
    var prefix := SyntheticPrefix(synthetic, 5);
    SyntheticPrefixProportion(synthetic, 5, 5);
    assert |prefix| == 25;
    AssembleManifestsPartitions(human, prefix);
  }

  /** The baseline run cuts its test slice at `int(0.7n) + int(0.15n)`, the
      sweep at `int(0.85n)`; the two disagree, e.g. for five human records the
      baseline tests on two of them and every sweep run on one. */
  lemma BaselineTestDiffersFromSweepTest<R>(human: seq<R>, synthetic: seq<R>, increment: nat)
    requires |human| == 5
    ensures |BaselineTestSet(human)| == 2
    ensures |SweepManifestsAsWritten(human, synthetic, increment).test| == 1
  {
    DataSplitSizes(human, TrainPercent, ValPercent);
    AssembleManifestsPartitions(human, SyntheticPrefixAsWritten(synthetic, increment));
  }

  // ---------------------------------------------------------------------
  // Manifest files: write_to_file and reading back
  // ---------------------------------------------------------------------

  /** The text `write_to_file` leaves in the file: for each record, its
      encoding (`json.dump`) followed by a newline. */
  function Serialize<R>(data: seq<R>, encode: R -> string): (text: string)
    ensures |text| >= |data|
    ensures |data| > 0 ==> text[|text| - 1] == '\n'
  {
    if |data| == 0 then ""
    else encode(data[0]) + "\n" + Serialize(data[1..], encode)
  }

  /** Appending one record appends exactly its line, which is what each turn
      of the writing loop does. */
  lemma {:induction false} SerializeAppend<R>(data: seq<R>, x: R, encode: R -> string)
    ensures Serialize(data + [x], encode) == Serialize(data, encode) + encode(x) + "\n"
    decreases |data|
  {
    if |data| > 0 {
      assert (data + [x])[1..] == data[1..] + [x];
      SerializeAppend(data[1..], x, encode);
    } else {
      assert data + [x] == [x];
    }
  }

  /** Iterating over a text file (`for line in f`): each line keeps its
      terminating newline; a last line without one is still a line. Only
      '\n' ends a line here: Python's universal-newline mode, which also
      ends lines at '\r' and "\r\n", is not modelled. */
  function Lines(s: string): (lines: seq<string>)
    ensures |lines| == 0 <==> |s| == 0
    ensures forall k :: 0 <= k < |lines| ==> |lines[k]| > 0 && '\n' !in lines[k][..|lines[k]| - 1]
    decreases |s|
  {
    if |s| == 0 then []
    else
      var i := IndexOf(s, '\n');
      if i == |s| then
        assert s[..|s| - 1] <= s[..i];
        [s]
      else
        assert s[..i + 1][..i] == s[..i];
        [s[..i + 1]] + Lines(s[i + 1..])
  }

  /** `[json.loads(line) for line in f]` */
  function ReadManifest<R>(content: string, decode: string -> R): (records: seq<R>)
    ensures |records| == |Lines(content)|
  {
    var lines := Lines(content);
    seq(|lines|, k requires 0 <= k < |lines| => decode(lines[k]))
  }

  /** A file written by `write_to_file` has exactly one line per record, in
      input order, each the record's encoding and a newline, provided no
      encoding contains a raw newline (true of `json.dump`'s compact form).
      A raw '\r', which `json.dump` never emits either, would end a line
      under universal newlines; `Lines` does not model that. */
  lemma {:induction false} SerializeLines<R>(data: seq<R>, encode: R -> string)
    requires forall r :: '\n' !in encode(r)
    ensures |Lines(Serialize(data, encode))| == |data|
    ensures forall k :: 0 <= k < |data| ==> Lines(Serialize(data, encode))[k] == encode(data[k]) + "\n"
    decreases |data|
  {
    if |data| > 0 {
      var e := encode(data[0]);
      var rest := Serialize(data[1..], encode);
      var s := Serialize(data, encode);
      assert s == e + ['\n'] + rest;
      IndexOfAfterPrefix(e, rest, '\n');
      assert s[..|e| + 1] == e + "\n";
      assert s[|e| + 1..] == rest;
      SerializeLines(data[1..], encode);
    }
  }

  /** Manifest round trip: reading back what `write_to_file` wrote gives the
      same records in the same order, when decoding a line inverts encoding. */
  lemma ManifestRoundTrip<R>(data: seq<R>, encode: R -> string, decode: string -> R)
    requires forall r :: '\n' !in encode(r)
    requires forall r :: decode(encode(r) + "\n") == r
    ensures ReadManifest(Serialize(data, encode), decode) == data
  {
    SerializeLines(data, encode);
  }

  // ---------------------------------------------------------------------
  // Run name
  // ---------------------------------------------------------------------

  const RunNamePrefix := "conformer_"

  /** `f'conformer_{synthetic_data_increment * 10}'` */
  function RunName(increment: nat): (name: string)
    ensures |name| > |RunNamePrefix| && name[..|RunNamePrefix|] == RunNamePrefix
  {
    RunNamePrefix + FormatNat(increment * 10)
  }

  /** The run name is the prefix followed by the decimal of ten times the
      increment, and different increments get different run names. */
  lemma RunNameShape(increment: nat, other: nat)
    ensures var name := RunName(increment);
      && name[..|RunNamePrefix|] == RunNamePrefix
      && AllDigits(name[|RunNamePrefix|..])
      && ParseDigits(name[|RunNamePrefix|..]) == increment * 10
    ensures RunName(increment) == RunName(other) <==> increment == other
  {
    var name := RunName(increment);
    assert name[|RunNamePrefix|..] == FormatNat(increment * 10);
    ParseFormat(increment * 10);
    if RunName(increment) == RunName(other) {
      assert RunName(other)[|RunNamePrefix|..] == FormatNat(other * 10);
      FormatInjective(increment * 10, other * 10);
    }
  }
}
