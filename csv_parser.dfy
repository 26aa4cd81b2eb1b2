/** `parse_apple_watch_csv`: one pass over the lines of an Apple Watch EKG export that
    sorts every stripped line into a signal sample, a metadata entry or nothing, and
    picks the sampling rate out of the `Messrate` entry. The model ends at the list of
    normalised sample strings; their conversion with `float()` is not part of it. */
module CsvParser {
  import opened Options
  import opened Strings
  import opened NumericLine
  import opened Decimal

  predicate IsQuote(c: char) {
    c == '"'
  }

  /** The key whose value carries the sampling rate, compared after lower-casing. */
  const RateKey: string := "messrate"

  // ---------------------------------------------------------------------------
  // One line
  // ---------------------------------------------------------------------------

  /** Key and value of a metadata line: split at the first comma, the key stripped of
      whitespace, the value stripped of whitespace and then of every leading and
      trailing double quote. */
  function Entry(line: string): (string, string)
    requires ',' in line
  {
    var (before, after) := SplitFirst(line, ',');
    (Strip(before), Trim(Strip(after), IsQuote))
  }

  /** The key is what stands before the first comma, without surrounding whitespace, so it
      holds no comma; the value is what follows it, without surrounding whitespace or quotes.
      Both are stripped for good: stripping them again changes nothing. */
  lemma EntryShape(line: string)
    requires ',' in line
    ensures var (key, value) := Entry(line);
      && ',' !in key
      && (key != [] ==> !IsSpace(key[0]) && !IsSpace(key[|key| - 1]))
      && (value != [] ==> !IsQuote(value[0]) && !IsQuote(value[|value| - 1]))
      && Strip(key) == key && Trim(value, IsQuote) == value
  {
    var (before, after) := SplitFirst(line, ',');
    TrimSpec(before, IsSpace);
    TrimSpec(Strip(after), IsQuote);
    TrimIdempotent(before, IsSpace);
    TrimIdempotent(Strip(after), IsQuote);
  }

  /** The key is the slice of `line` before its first comma that `strip()` keeps: it is cut
      only at whitespace and, unless empty, neither starts nor ends with whitespace, which
      fixes it. */
  lemma EntryKey(line: string)
    requires ',' in line
    ensures var c := FirstIndex(line, ',');
      exists i, j :: 0 <= i <= j <= c && Entry(line).0 == line[i..j]
        && (forall k :: 0 <= k < i ==> IsSpace(line[k]))
        && (forall k :: j <= k < c ==> IsSpace(line[k]))
        && (i < j ==> !IsSpace(line[i]) && !IsSpace(line[j - 1]))
  {
    var c := EntryParts(line);
    var i, j := StripWithin(line, 0, c);
  }

  /** The value is the slice of `line` after its first comma that `strip()` keeps, with its
      leading and trailing double quotes then stripped. */
  lemma EntryValue(line: string)
    requires ',' in line
    ensures var c := FirstIndex(line, ',');
      exists i, j :: c + 1 <= i <= j <= |line| && Entry(line).1 == Trim(line[i..j], IsQuote)
        && (forall k :: c + 1 <= k < i ==> IsSpace(line[k]))
        && (forall k :: j <= k < |line| ==> IsSpace(line[k]))
        && (i < j ==> !IsSpace(line[i]) && !IsSpace(line[j - 1]))
  {
    var c := EntryParts(line);
    var i, j := StripWithin(line, c + 1, |line|);
    var stripped := line[i..j];
    assert Entry(line).1 == Trim(stripped, IsQuote);
  }

  /** `Entry` in terms of the index of the first comma. */
  lemma EntryParts(line: string) returns (c: nat)
    requires ',' in line
    ensures c == FirstIndex(line, ',')
    ensures Entry(line) == (Strip(line[0..c]), Trim(Strip(line[c + 1..|line|]), IsQuote))
  {
    c := FirstIndex(line, ',');
    assert SplitFirst(line, ',') == (line[..c], line[c + 1..]);
    assert line[..c] == line[0..c] && line[c + 1..] == line[c + 1..|line|];
  }

  /** `strip()` of the slice `line[a..b]`, as a slice of `line` itself. */
  lemma StripWithin(line: string, a: nat, b: nat) returns (i: nat, j: nat)
    requires a <= b <= |line|
    ensures a <= i <= j <= b && Strip(line[a..b]) == line[i..j]
    ensures forall k :: a <= k < i ==> IsSpace(line[k])
    ensures forall k :: j <= k < b ==> IsSpace(line[k])
    ensures i < j ==> !IsSpace(line[i]) && !IsSpace(line[j - 1])
  {
    var s := line[a..b];
    var i0, j0 := StripSlice(s);
    i, j := a + i0, a + j0;
    forall k | 0 <= k < j0 - i0 ensures s[i0..j0][k] == line[i..j][k] {
      assert s[i0..j0][k] == s[i0 + k] == line[a + i0 + k];
    }
    assert s[i0..j0] == line[i..j];
    forall k | a <= k < i ensures IsSpace(line[k]) {
      assert line[k] == s[k - a];
    }
    forall k | j <= k < b ensures IsSpace(line[k]) {
      assert line[k] == s[k - a];
    }
    assert i < j ==> line[i] == s[i0] && line[j - 1] == s[j0 - 1];
  }

  /** The bounds of the slice that `strip()` keeps. */
  lemma StripSlice(s: string) returns (i: nat, j: nat)
    ensures i <= j <= |s| && Strip(s) == s[i..j]
    ensures forall k :: 0 <= k < i ==> IsSpace(s[k])
    ensures forall k :: j <= k < |s| ==> IsSpace(s[k])
    ensures i < j ==> !IsSpace(s[i]) && !IsSpace(s[j - 1])
  {
    TrimSpec(s, IsSpace);
    i, j :| 0 <= i <= j <= |s| && Strip(s) == s[i..j]
      && (forall k :: 0 <= k < i ==> IsSpace(s[k]))
      && (forall k :: j <= k < |s| ==> IsSpace(s[k]));
  }

  predicate IsRateKey(key: string) {
    Lower(key) == RateKey
  }

  /** `float(value.split()[0].replace(',', '.'))`, with `None` where the `try` block fails. */
  function RateOf(value: string): Option<real> {
    match FirstToken(value)
    case None => None
    case Some(word) => ParseDecimal(ReplaceAll(word, ',', '.'))
  }

  /** A data line with its decimal commas turned into points. */
  function Normalize(line: string): (token: string)
    ensures |token| == |line|
  {
    ReplaceAll(line, ',', '.')
  }

  /** Every comma of a data line becomes a point and nothing else changes, so no comma is left. */
  lemma NormalizeSpec(line: string)
    ensures forall k :: 0 <= k < |line| ==> Normalize(line)[k] == if line[k] == ',' then '.' else line[k]
    ensures ',' !in Normalize(line)
  {
    ReplaceAllSpec(line, ',', '.');
  }

  /** What one line contributes: a signal token, a metadata entry (with the rate it
      sets, if any), or nothing. */
  datatype LineEntry =
    | Sample(token: string)
    | Field(key: string, value: string, rate: Option<real>)
    | Ignored

  /** The body of the loop for one line as `splitlines` delivers it. */
  function ReadLine(raw: string): LineEntry {
    ReadStripped(Strip(raw))
  }

  /** The same for the line once stripped; the metadata test comes first. */
  function ReadStripped(line: string): LineEntry {
    if ',' in line && !IsNumeric(line) then
      var (key, value) := Entry(line);
      Field(key, value, if IsRateKey(key) then RateOf(value) else None)
    else if IsNumeric(line) then
      Sample(Normalize(line))
    else
      Ignored
  }

  /** Every line has exactly one fate, and the loose-number grammar decides it:
      a loose number is a sample even when it holds a comma. */
  lemma LineFate(raw: string)
    ensures ReadLine(raw).Sample? <==> LooseNumber(Strip(raw))
    ensures ReadLine(raw).Field? <==> ',' in Strip(raw) && !LooseNumber(Strip(raw))
    ensures ReadLine(raw).Ignored? <==> ',' !in Strip(raw) && !LooseNumber(Strip(raw))
  {
    IsNumericCharacterisation(Strip(raw));
  }

  /** `12,5` is a sample, not a metadata entry with key `12`. */
  lemma CommaNumberIsSample()
    ensures ReadLine("12,5") == Sample("12.5")
  {
    var line := "12,5";
    assert !IsSpace(line[0]) && !IsSpace(line[3]);
    assert TrimLeft(line, IsSpace) == line;
    assert TrimRight(line, IsSpace) == line;
    CommaDecimalIsNumeric();
    assert Normalize(line) == "12.5";
  }

  /** The rate key matches in any mix of upper and lower case, and only then. */
  lemma RateKeyAnyCase(key: string)
    ensures IsRateKey(key) <==>
      |key| == 8 && forall k :: 0 <= k < 8 ==> key[k] == RateKey[k] || key[k] == "MESSRATE"[k]
  {
    LowerSpec(key);
    if IsRateKey(key) {
      forall k | 0 <= k < 8 ensures key[k] == RateKey[k] || key[k] == "MESSRATE"[k] {
        assert LowerChar(key[k]) == RateKey[k];
      }
    }
    if |key| == 8 && forall k :: 0 <= k < 8 ==> key[k] == RateKey[k] || key[k] == "MESSRATE"[k] {
      assert forall k :: 0 <= k < 8 ==> Lower(key)[k] == RateKey[k];
    }
  }

  // ---------------------------------------------------------------------------
  // The loop state
  // ---------------------------------------------------------------------------

  /** The three variables the loop updates. */
  datatype ParseState = ParseState(metadata: map<string, string>, dataLines: seq<string>, samplingRate: Option<real>)

  const Initial: ParseState := ParseState(map[], [], None)

  /** The effect of one line: the entry is stored before the rate is looked at, and a
      rate that does not parse leaves the earlier one in place. */
  function Apply(st: ParseState, e: LineEntry): ParseState {
    match e
    case Sample(token) => st.(dataLines := st.dataLines + [token])
    case Field(key, value, rate) =>
      st.(metadata := st.metadata[key := value],
          samplingRate := if rate.Some? then rate else st.samplingRate)
    case Ignored => st
  }

  /** The state after the entries `es`, in order. */
  function Fold(es: seq<LineEntry>): ParseState {
    if es == [] then Initial else Apply(Fold(es[..|es| - 1]), es[|es| - 1])
  }

  /** `f` applied to every element of `xs`, in order. */
  function MapSeq<A, B>(f: A -> B, xs: seq<A>): (ys: seq<B>)
    ensures |ys| == |xs| && forall j :: 0 <= j < |xs| ==> ys[j] == f(xs[j])
  {
    seq(|xs|, j requires 0 <= j < |xs| => f(xs[j]))
  }

  lemma MapSeqSnoc<A, B>(f: A -> B, xs: seq<A>, i: nat)
    requires i < |xs|
    ensures MapSeq(f, xs[..i + 1]) == MapSeq(f, xs[..i]) + [f(xs[i])]
  {
    var a, b := MapSeq(f, xs[..i + 1]), MapSeq(f, xs[..i]) + [f(xs[i])];
    forall j | 0 <= j < |a| ensures a[j] == b[j] {
      if j < i {
        assert xs[..i + 1][j] == xs[..i][j];
      }
    }
  }

  /** The entries of `lines`, one per line. */
  function Entries(lines: seq<string>): seq<LineEntry> {
    MapSeq(ReadLine, lines)
  }

  lemma FoldSnoc(es: seq<LineEntry>, e: LineEntry)
    ensures Fold(es + [e]) == Apply(Fold(es), e)
  {
    assert (es + [e])[..|es|] == es;
  }

  /** One more line takes the state one more step. */
  lemma ParseSnoc(lines: seq<string>, i: nat)
    requires i < |lines|
    ensures Parse(lines[..i + 1]) == Apply(Parse(lines[..i]), ReadLine(lines[i]))
  {
    MapSeqSnoc(ReadLine, lines, i);
    FoldSnoc(Entries(lines[..i]), ReadLine(lines[i]));
  }

  /** What `parse_apple_watch_csv` computes from its lines, up to the `float()` conversion. */
  function Parse(lines: seq<string>): ParseState {
    Fold(Entries(lines))
  }

  // ---------------------------------------------------------------------------
  // The parser itself
  // ---------------------------------------------------------------------------

  /** The loop of `parse_apple_watch_csv` over the lines of `content`. */
  method ParseAppleWatchCsv(content: string)
    returns (metadata: map<string, string>, dataLines: seq<string>, samplingRate: Option<real>)
    ensures ParseState(metadata, dataLines, samplingRate) == Parse(SplitLines(content))
    ensures |dataLines| == |NumericLines(SplitLines(content))|
    ensures forall k :: 0 <= k < |dataLines| ==> dataLines[k] == Normalize(NumericLines(SplitLines(content))[k])
    ensures samplingRate.None? <==>
      forall j :: 0 <= j < |SplitLines(content)| ==> !SetsRate(ReadLine(SplitLines(content)[j]))
  {
    var lines := SplitLines(content);
    metadata, dataLines, samplingRate := map[], [], None;
    var i := 0;
    while i < |lines|
      invariant 0 <= i <= |lines|
      invariant ParseState(metadata, dataLines, samplingRate) == Parse(lines[..i])
    {
      metadata, dataLines, samplingRate := ReadInto(metadata, dataLines, samplingRate, lines[i]);
      ParseSnoc(lines, i);
      i := i + 1;
    }
    assert lines[..|lines|] == lines;
    DataLinesAreNormalizedNumericLines(lines);
    SamplingRateIsLastSuccess(lines);
  }

  /** One pass of the loop body: strip the line, then store a metadata entry (and the rate,
      when the key is the rate key and its first word parses), or append a data token. */
  method ReadInto(metadata0: map<string, string>, dataLines0: seq<string>, samplingRate0: Option<real>, raw: string)
    returns (metadata: map<string, string>, dataLines: seq<string>, samplingRate: Option<real>)
    ensures ParseState(metadata, dataLines, samplingRate)
      == Apply(ParseState(metadata0, dataLines0, samplingRate0), ReadLine(raw))
  {
    metadata, dataLines, samplingRate := metadata0, dataLines0, samplingRate0;
    var line := Strip(raw);
    if ',' in line && !IsNumeric(line) {
      var (left, right) := SplitFirst(line, ',');
      var key := Strip(left);
      var value := Trim(Strip(right), IsQuote);
      metadata := metadata[key := value];
      if Lower(key) == RateKey {
        var rate := RateOf(value);
        if rate.Some? {
          samplingRate := rate;
        }
      }
    } else if IsNumeric(line) {
      dataLines := dataLines + [ReplaceAll(line, ',', '.')];
    }
  }

  // ---------------------------------------------------------------------------
  // Signal tokens
  // ---------------------------------------------------------------------------

  /** The tokens of the samples among `es`, in order. */
  function Samples(es: seq<LineEntry>): seq<string> {
    if es == [] then [] else (if es[0].Sample? then [es[0].token] else []) + Samples(es[1..])
  }

  lemma {:induction false} SamplesSnoc(es: seq<LineEntry>, e: LineEntry)
    ensures Samples(es + [e]) == Samples(es) + (if e.Sample? then [e.token] else [])
  {
    if es == [] {
      assert [] + [e] == [e];
    } else {
      var head := if es[0].Sample? then [es[0].token] else [];
      var last := if e.Sample? then [e.token] else [];
      assert (es + [e])[0] == es[0];
      assert (es + [e])[1..] == es[1..] + [e];
      SamplesSnoc(es[1..], e);
      calc {
        Samples(es + [e]);
        head + Samples(es[1..] + [e]);
        head + (Samples(es[1..]) + last);
        (head + Samples(es[1..])) + last;
        Samples(es) + last;
      }
    }
  }

  /** The signal holds the sample tokens in input order; metadata lines do not touch it. */
  lemma {:induction false} FoldDataLines(es: seq<LineEntry>)
    ensures Fold(es).dataLines == Samples(es)
  {
    if es != [] {
      var n := |es| - 1;
      FoldDataLines(es[..n]);
      assert es == es[..n] + [es[n]];
      SamplesSnoc(es[..n], es[n]);
    }
  }

  /** The stripped data lines of `lines`, in order: the lines the numeric test accepts. */
  function NumericLines(lines: seq<string>): seq<string> {
    if lines == [] then []
    else (if IsNumeric(Strip(lines[0])) then [Strip(lines[0])] else []) + NumericLines(lines[1..])
  }

  lemma {:induction false} SamplesOfEntries(lines: seq<string>)
    ensures |Samples(Entries(lines))| == |NumericLines(lines)|
    ensures forall k :: 0 <= k < |NumericLines(lines)| ==>
      Samples(Entries(lines))[k] == Normalize(NumericLines(lines)[k])
  {
    if lines != [] {
      SamplesOfEntries(lines[1..]);
      assert Entries(lines)[1..] == Entries(lines[1..]);
      var e := ReadLine(lines[0]);
      assert Entries(lines)[0] == e;
      assert e.Sample? <==> IsNumeric(Strip(lines[0]));
      assert e.Sample? ==> e.token == Normalize(Strip(lines[0]));
    }
  }

  /** One token per data line, in file order, each the stripped line with its commas made
      points: as long as the line, and without a comma. */
  lemma DataLinesAreNormalizedNumericLines(lines: seq<string>)
    ensures |Parse(lines).dataLines| == |NumericLines(lines)|
    ensures forall k :: 0 <= k < |NumericLines(lines)| ==>
      Parse(lines).dataLines[k] == Normalize(NumericLines(lines)[k])
  {
    FoldDataLines(Entries(lines));
    SamplesOfEntries(lines);
  }

  lemma {:induction false} NumericLinesEmpty(lines: seq<string>)
    ensures NumericLines(lines) == [] <==> forall j :: 0 <= j < |lines| ==> !IsNumeric(Strip(lines[j]))
  {
    if lines != [] {
      NumericLinesEmpty(lines[1..]);
      assert forall j :: 1 <= j < |lines| ==> lines[j] == lines[1..][j - 1];
    }
  }

  /** The signal is empty exactly when the numeric test accepts no line. */
  lemma SignalEmptyIff(lines: seq<string>)
    ensures Parse(lines).dataLines == [] <==> forall j :: 0 <= j < |lines| ==> !IsNumeric(Strip(lines[j]))
  {
    DataLinesAreNormalizedNumericLines(lines);
    NumericLinesEmpty(lines);
  }

  // ---------------------------------------------------------------------------
  // Metadata and sampling rate
  // ---------------------------------------------------------------------------

  /** `e` is a metadata entry for `key`. */
  predicate WritesKey(e: LineEntry, key: string) {
    e.Field? && e.key == key
  }

  /** `e` is a metadata entry for the rate key whose rate word parsed. */
  predicate SetsRate(e: LineEntry) {
    e.Field? && e.rate.Some?
  }

  /** A key is in the metadata exactly when some entry writes it, and its value is that of the
      last such entry. */
  lemma {:induction false} FoldMetadata(es: seq<LineEntry>, key: string)
    ensures key in Fold(es).metadata <==> exists j :: 0 <= j < |es| && WritesKey(es[j], key)
    ensures key in Fold(es).metadata ==>
      exists j :: 0 <= j < |es| && WritesKey(es[j], key)
        && Fold(es).metadata[key] == es[j].value
        && forall i :: j < i < |es| ==> !WritesKey(es[i], key)
  {
    if es != [] {
      var n := |es| - 1;
      var p, x := es[..n], es[n];
      FoldMetadata(p, key);
      assert forall j :: 0 <= j < n ==> p[j] == es[j];
      if !WritesKey(x, key) {
        assert key in Fold(es).metadata <==> key in Fold(p).metadata;
        if exists j :: 0 <= j < |es| && WritesKey(es[j], key) {
          var j :| 0 <= j < |es| && WritesKey(es[j], key);
          assert WritesKey(p[j], key);
        }
        if key in Fold(p).metadata {
          var j :| 0 <= j < |p| && WritesKey(p[j], key)
            && Fold(p).metadata[key] == p[j].value
            && forall i :: j < i < |p| ==> !WritesKey(p[i], key);
          assert forall i :: j < i < |es| ==> !WritesKey(es[i], key) by {
            forall i | j < i < |es| ensures !WritesKey(es[i], key) {
              if i < n { assert es[i] == p[i]; }
            }
          }
        }
      }
    }
  }

  /** The rate is absent exactly when no entry sets it; otherwise it is the rate of the last
      entry that does. */
  lemma {:induction false} FoldSamplingRate(es: seq<LineEntry>)
    ensures Fold(es).samplingRate.None? <==> forall j :: 0 <= j < |es| ==> !SetsRate(es[j])
    ensures Fold(es).samplingRate.Some? ==>
      exists j :: 0 <= j < |es| && SetsRate(es[j])
        && Fold(es).samplingRate == es[j].rate
        && forall i :: j < i < |es| ==> !SetsRate(es[i])
  {
    if es != [] {
      var n := |es| - 1;
      var p, x := es[..n], es[n];
      FoldSamplingRate(p);
      assert forall j :: 0 <= j < n ==> p[j] == es[j];
      if !SetsRate(x) {
        assert Fold(es).samplingRate == Fold(p).samplingRate;
        if exists j :: 0 <= j < |es| && SetsRate(es[j]) {
          var j :| 0 <= j < |es| && SetsRate(es[j]);
          assert SetsRate(p[j]);
        }
        if Fold(p).samplingRate.Some? {
          var j :| 0 <= j < |p| && SetsRate(p[j])
            && Fold(p).samplingRate == p[j].rate
            && forall i :: j < i < |p| ==> !SetsRate(p[i]);
          assert forall i :: j < i < |es| ==> !SetsRate(es[i]) by {
            forall i | j < i < |es| ensures !SetsRate(es[i]) {
              if i < n { assert es[i] == p[i]; }
            }
          }
        }
      }
    }
  }

  /** Last write wins: a key is in the metadata exactly when some metadata line has it as its
      key, and its value is the value of the last such line. */
  lemma MetadataLastWriteWins(lines: seq<string>, key: string)
    ensures key in Parse(lines).metadata <==>
      exists j :: 0 <= j < |lines| && WritesKey(ReadLine(lines[j]), key)
    ensures key in Parse(lines).metadata ==>
      exists j :: 0 <= j < |lines| && WritesKey(ReadLine(lines[j]), key)
        && Parse(lines).metadata[key] == ReadLine(lines[j]).value
        && forall i :: j < i < |lines| ==> !WritesKey(ReadLine(lines[i]), key)
  {
    FoldMetadata(Entries(lines), key);
  }

  /** The rate is absent unless some rate-key line has a word that parses; the last such line
      wins, and failed rate lines after it change nothing. */
  lemma SamplingRateIsLastSuccess(lines: seq<string>)
    ensures Parse(lines).samplingRate.None? <==>
      forall j :: 0 <= j < |lines| ==> !SetsRate(ReadLine(lines[j]))
    ensures Parse(lines).samplingRate.Some? ==>
      exists j :: 0 <= j < |lines| && SetsRate(ReadLine(lines[j]))
        && Parse(lines).samplingRate == ReadLine(lines[j]).rate
        && forall i :: j < i < |lines| ==> !SetsRate(ReadLine(lines[i]))
  {
    FoldSamplingRate(Entries(lines));
  }

  /** A rate entry is made only for the rate key, from the first word of its value; a rate word
      that does not parse still leaves the entry, under its key as written, in the metadata. */
  lemma RateEntry(raw: string)
    requires ReadLine(raw).Field?
    ensures ReadLine(raw).rate.Some? <==>
      IsRateKey(ReadLine(raw).key) && RateOf(ReadLine(raw).value).Some?
    ensures ReadLine(raw).rate.Some? ==> ReadLine(raw).rate == RateOf(ReadLine(raw).value)
  {
  }

  /** A rate is whatever the first word reads as: zero is a rate. */
  lemma ZeroRate()
    ensures RateOf("0") == Some(0.0)
  {
    assert TrimLeft("0", IsSpace) == "0" && Word("0") == "0";
    assert ReplaceAll("0", ',', '.') == "0";
    ParseShowNat(0);
    assert ShowNat(0) == "0";
  }

  /** A negative rate is a rate too. */
  lemma NegativeRate()
    ensures RateOf("-5") == Some(-5.0)
  {
    assert TrimLeft("-5", IsSpace) == "-5" && Word("-5") == "-5";
    assert ReplaceAll("-5", ',', '.') == "-5";
    ParseShowNat(5);
    assert "-" + ShowNat(5) == "-5";
  }

  /** The rate line of an export, `Messrate,"512 Hz"`, end to end: it is a metadata line, its
      key and unquoted value are stored, and its first word sets the rate 512. */
  lemma RateLineExample()
    ensures ReadLine("Messrate,\"512 Hz\"") == Field("Messrate", "512 Hz", Some(512.0))
  {
    var line := "Messrate,\"512 Hz\"";
    RateLineIsField(line);
    RateLineEntry(line);
    RateKeyMessrate();
    RateOfHz();
  }

  lemma RateLineIsField(line: string)
    requires line == "Messrate,\"512 Hz\""
    ensures Strip(line) == line && ',' in line && !IsNumeric(line)
  {
    TrimUnchanged(line, IsSpace);
    assert line[8] == ',';
    NotNumericAtStart(line);
  }

  lemma RateLineEntry(line: string)
    requires line == "Messrate,\"512 Hz\""
    ensures Entry(line) == ("Messrate", "512 Hz")
  {
    RateLineSplit(line);
    TrimUnchanged("Messrate", IsSpace);
    UnquoteHz();
  }

  lemma RateLineSplit(line: string)
    requires line == "Messrate,\"512 Hz\""
    ensures SplitFirst(line, ',') == ("Messrate", "\"512 Hz\"")
  {
    assert line[..8] == "Messrate" && line[8] == ',' && line[9..] == "\"512 Hz\"";
    FirstIndexAt(line, ',', 8);
  }

  lemma UnquoteHz()
    ensures Trim(Strip("\"512 Hz\""), IsQuote) == "512 Hz"
  {
    var quoted := "\"512 Hz\"";
    TrimUnchanged(quoted, IsSpace);
    assert TrimLeft(quoted, IsQuote) == TrimLeft("512 Hz\"", IsQuote) == "512 Hz\"";
    assert TrimRight("512 Hz\"", IsQuote) == TrimRight("512 Hz", IsQuote) == "512 Hz";
  }

  lemma RateKeyMessrate()
    ensures IsRateKey("Messrate")
  {
    RateKeyAnyCase("Messrate");
  }

  lemma RateOfHz()
    ensures RateOf("512 Hz") == Some(512.0)
  {
    TrimUnchanged("512 Hz", IsSpace);
    assert Word("512 Hz") == "512";
    assert ReplaceAll("512", ',', '.') == "512";
    assert ShowNat(512) == "512";
    ParseShowNat(512);
  }

  /** A value with no word in it, such as an empty one, gives no rate, where
      `value.split()[0]` raises inside the `try` block. */
  lemma BlankValueGivesNoRate(value: string)
    requires forall k :: 0 <= k < |value| ==> IsSpace(value[k])
    ensures RateOf(value) == None
  {
    FirstTokenSpec(value);
  }

  /** A metadata line stores its entry whatever happens to the rate, and a rate line that
      fails to parse keeps the earlier rate. */
  lemma FailedRateKeepsRateStoresKey(st: ParseState, raw: string)
    requires ReadLine(raw).Field? && IsRateKey(ReadLine(raw).key) && RateOf(ReadLine(raw).value).None?
    ensures Apply(st, ReadLine(raw)).samplingRate == st.samplingRate
    ensures Apply(st, ReadLine(raw)).metadata == st.metadata[ReadLine(raw).key := ReadLine(raw).value]
  {
  }
}
