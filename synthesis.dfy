/** The batch text-to-speech driver of app/main.py: each input row's voice
    string is parsed into a language and an accent, an output file name is
    derived from the 1-based row number, and synthesis is requested. The
    speech service itself is outside the model; a request is the triple of
    arguments `synthesize_speech` is called with. */
module Synthesis {
  import opened Strings
  import opened Decimal

  datatype Option<T> = None | Some(value: T)

  // ---------------------------------------------------------------------
  // extract_language_and_accent
  // ---------------------------------------------------------------------

  /** The outcome of `extract_language_and_accent`: the first two fields of
      the voice string, or the IndexError raised by `parts[1]` when the
      string has no '-'. */
  datatype VoiceParse = Parsed(language: string, accent: string) | IndexError

  function ExtractLanguageAndAccent(voice: string): (r: VoiceParse)
    ensures r.IndexError? <==> '-' !in voice
    ensures r.Parsed? ==> '-' !in r.language && '-' !in r.accent
  {
    var parts := Split(voice, '-');
    if |parts| < 2 then IndexError else Parsed(parts[0], parts[1])
  }

  /** Parsing fails exactly when there is no '-'; otherwise the language is
      the text before the first '-', the accent the text between the first
      and the second '-' (or up to the end when there is no second), and
      neither contains '-'. */
  lemma ExtractFields(voice: string)
    ensures var r := ExtractLanguageAndAccent(voice);
      && (r.IndexError? <==> '-' !in voice)
      && (r.Parsed? ==>
            var i := IndexOf(voice, '-');
            var rest := voice[i + 1..];
            && r.language == voice[..i]
            && r.accent == rest[..IndexOf(rest, '-')]
            && '-' !in r.language
            && '-' !in r.accent)
  {
    var i := IndexOf(voice, '-');
    if i < |voice| {
      SplitUnfold(voice, '-', i);
    }
  }

  /** Whatever follows the second '-' is ignored: composing a voice string
      from a language, an accent and any speaker suffix parses back to that
      language and accent, and so does one with no suffix. */
  lemma ExtractIgnoresTail(language: string, accent: string, tail: string)
    requires '-' !in language && '-' !in accent
    ensures ExtractLanguageAndAccent(language + "-" + accent + "-" + tail) == Parsed(language, accent)
    ensures ExtractLanguageAndAccent(language + "-" + accent) == Parsed(language, accent)
  {
    assert language + "-" + accent + "-" + tail == language + ['-'] + (accent + ['-'] + tail);
    SplitAfterPrefix(language, accent + ['-'] + tail, '-');
    SplitAfterPrefix(accent, tail, '-');
    assert language + "-" + accent == language + ['-'] + accent;
    SplitAfterPrefix(language, accent, '-');
  }

  // ---------------------------------------------------------------------
  // Output file names
  // ---------------------------------------------------------------------

  const OutputDir := "output"

  /** `f"{index}_{language}_{accent}.wav"` */
  function OutputFileName(index: nat, language: string, accent: string): (name: string)
    ensures |name| > 4 && name[|name| - 4..] == ".wav"
  {
    FormatNat(index) + "_" + language + "_" + accent + ".wav"
  }

  /** `os.path.join(output_dir, output_filename)` for a relative file name:
      the directory, a '/', and the name, which can be read back. */
  function OutputPath(name: string): (path: string)
    ensures |path| > |OutputDir| && path[..|OutputDir|] == OutputDir && path[|OutputDir|] == '/'
    ensures path[|OutputDir| + 1..] == name
  {
    OutputDir + "/" + name
  }

  /** The text before the first '_' of an output file name is the decimal
      row index, and the name ends in ".wav". */
  lemma OutputFileNameIndex(index: nat, language: string, accent: string)
    ensures var name := OutputFileName(index, language, accent);
      var cut := IndexOf(name, '_');
      && AllDigits(name[..cut])
      && ParseDigits(name[..cut]) == index
      && name[|name| - 4..] == ".wav"
  {
    var digits := FormatNat(index);
    var name := OutputFileName(index, language, accent);
    assert '_' !in digits;
    IndexOfAfterPrefix(digits, language + "_" + accent + ".wav", '_');
    assert name == digits + ['_'] + (language + "_" + accent + ".wav");
    assert name[..|digits|] == digits;
    ParseFormat(index);
  }

  /** Rows with different indices get different output paths, whatever
      their languages and accents. */
  lemma OutputPathsDistinct(i: nat, j: nat, language: string, accent: string, language': string, accent': string)
    requires i != j
    ensures OutputPath(OutputFileName(i, language, accent)) != OutputPath(OutputFileName(j, language', accent'))
  {
    var a, b := OutputFileName(i, language, accent), OutputFileName(j, language', accent');
    if OutputPath(a) == OutputPath(b) {
      assert a == OutputPath(a)[|OutputDir| + 1..];
      assert b == OutputPath(b)[|OutputDir| + 1..];
      OutputFileNameIndex(i, language, accent);
      OutputFileNameIndex(j, language', accent');
    }
  }

  // ---------------------------------------------------------------------
  // The row loop
  // ---------------------------------------------------------------------

  /** One row of the input table. */
  datatype Row = Row(text: string, voice: string)

  /** The arguments of one `synthesize_speech(text, voice, output_filename)` call. */
  datatype SynthesisRequest = SynthesisRequest(text: string, voice: string, outputPath: string)

  /** What the loop body does with row number `index`: None when parsing the
      voice raises. */
  function RequestFor(index: nat, row: Row): (r: Option<SynthesisRequest>)
    ensures r.None? <==> '-' !in row.voice
    ensures r.Some? ==>
      && r.value.text == row.text
      && |r.value.outputPath| > |OutputDir|
      && r.value.outputPath[..|OutputDir|] == OutputDir
  {
    match ExtractLanguageAndAccent(row.voice)
    case IndexError => None
    case Parsed(language, accent) =>
      Some(SynthesisRequest(row.text, language, OutputPath(OutputFileName(index, language, accent))))
  }

  /** A row yields a request exactly when its voice has a '-'; the request
      carries the row's text, is sent with the bare language (the text before
      the first '-', never the full voice string), and is written to the
      output directory under a name whose leading number is the row index. */
  lemma RequestForRow(index: nat, row: Row)
    ensures RequestFor(index, row).None? <==> '-' !in row.voice
    ensures RequestFor(index, row).Some? ==>
      var r := RequestFor(index, row).value;
      var p := ExtractLanguageAndAccent(row.voice);
      && r.text == row.text
      && r.voice == row.voice[..IndexOf(row.voice, '-')]
      && r.voice != row.voice
      && r.outputPath == OutputPath(OutputFileName(index, p.language, p.accent))
  {
    ExtractFields(row.voice);
  }

  /** Requests for different row numbers never share an output path. */
  lemma RequestPathsDistinct(i: nat, j: nat, row: Row, row': Row)
    requires i != j
    requires RequestFor(i, row).Some? && RequestFor(j, row').Some?
    ensures RequestFor(i, row).value.outputPath != RequestFor(j, row').value.outputPath
  {
    var p, p' := ExtractLanguageAndAccent(row.voice), ExtractLanguageAndAccent(row'.voice);
    OutputPathsDistinct(i, j, p.language, p.accent, p'.language, p'.accent);
  }

  /** `requests` are the requests for the first `|requests|` rows, numbered from 1. */
  predicate Numbered(rows: seq<Row>, requests: seq<SynthesisRequest>)
  {
    && |requests| <= |rows|
    && forall k :: 0 <= k < |requests| ==> RequestFor(k + 1, rows[k]) == Some(requests[k])
  }

  /** No two requests share an output path. */
  predicate DistinctPaths(requests: seq<SynthesisRequest>)
  {
    forall j, k :: 0 <= j < k < |requests| ==> requests[j].outputPath != requests[k].outputPath
  }

  /** Appending the request for the next row keeps the requests numbered
      and their output paths distinct. */
  lemma NextRequest(rows: seq<Row>, requests: seq<SynthesisRequest>, request: SynthesisRequest)
    requires Numbered(rows, requests) && DistinctPaths(requests)
    requires |requests| < |rows|
    requires RequestFor(|requests| + 1, rows[|requests|]) == Some(request)
    ensures Numbered(rows, requests + [request]) && DistinctPaths(requests + [request])
  {
    NextNumbered(rows, requests, request);
    FreshPath(rows, requests, request);
    AppendDistinct(requests, request);
  }

  /** The request for the next row extends the numbering. */
  lemma NextNumbered(rows: seq<Row>, requests: seq<SynthesisRequest>, request: SynthesisRequest)
    requires Numbered(rows, requests)
    requires |requests| < |rows|
    requires RequestFor(|requests| + 1, rows[|requests|]) == Some(request)
    ensures Numbered(rows, requests + [request])
  {
    var extended := requests + [request];
    assert forall k :: 0 <= k < |requests| ==> extended[k] == requests[k];
  }

  /** The next row's output path is none of the earlier rows' paths. */
  lemma FreshPath(rows: seq<Row>, requests: seq<SynthesisRequest>, request: SynthesisRequest)
    requires Numbered(rows, requests)
    requires |requests| < |rows|
    requires RequestFor(|requests| + 1, rows[|requests|]) == Some(request)
    ensures forall j :: 0 <= j < |requests| ==> requests[j].outputPath != request.outputPath
  {
    forall j | 0 <= j < |requests|
      ensures requests[j].outputPath != request.outputPath
    {
      FreshPathAt(rows, requests, request, j);
    }
  }

  /** The same for one earlier row. */
  lemma FreshPathAt(rows: seq<Row>, requests: seq<SynthesisRequest>, request: SynthesisRequest, j: nat)
    requires Numbered(rows, requests)
    requires j < |requests| < |rows|
    requires RequestFor(|requests| + 1, rows[|requests|]) == Some(request)
    ensures requests[j].outputPath != request.outputPath
  {
    assert RequestFor(j + 1, rows[j]) == Some(requests[j]);
    RequestPathsDistinct(j + 1, |requests| + 1, rows[j], rows[|requests|]);
  }

  /** A request whose path is fresh keeps the paths distinct. */
  lemma AppendDistinct(requests: seq<SynthesisRequest>, request: SynthesisRequest)
    requires DistinctPaths(requests)
    requires forall j :: 0 <= j < |requests| ==> requests[j].outputPath != request.outputPath
    ensures DistinctPaths(requests + [request])
  {
    var extended := requests + [request];
    assert forall k :: 0 <= k < |requests| ==> extended[k] == requests[k];
  }

  /** The loop `for index, row in enumerate(reader, start=1)`: rows are
      numbered from 1, each row's request is the one `RequestFor` gives for
      its number, and all output paths differ. The first row whose voice has
      no '-' raises and ends the script: `failedRow` is its number, and the
      requests before it have been made. */
  method SynthesizeRows(rows: seq<Row>) returns (requests: seq<SynthesisRequest>, failedRow: Option<nat>)
    ensures |requests| <= |rows|
    ensures forall k :: 0 <= k < |requests| ==> RequestFor(k + 1, rows[k]) == Some(requests[k])
    ensures failedRow.None? ==> |requests| == |rows|
    ensures failedRow.Some? ==>
      && failedRow.value == |requests| + 1
      && |requests| < |rows|
      && '-' !in rows[|requests|].voice
    ensures forall j, k :: 0 <= j < k < |requests| ==> requests[j].outputPath != requests[k].outputPath
  {
    requests := [];
    failedRow := None;
    for index := 1 to |rows| + 1
      invariant |requests| == index - 1
      invariant Numbered(rows, requests) && DistinctPaths(requests)
    {
      var row := rows[index - 1];
      var parsed := ExtractLanguageAndAccent(row.voice);
      if parsed.IndexError? {
        ExtractFields(row.voice);
        failedRow := Some(index);
        return;
      }
      var name := OutputFileName(index, parsed.language, parsed.accent);
      var request := SynthesisRequest(row.text, parsed.language, OutputPath(name));
      assert RequestFor(index, row) == Some(request);
      NextRequest(rows, requests, request);
      requests := requests + [request];
    }
  }
}
