/** The colour statistics of one image and the CSV text the program writes
    for them (main.cpp, GenerateStatsCsv): three lines, red then green then
    blue, each listing the 256 counters in bin order, every counter followed
    by ", ", with a newline after the red and green lines only. The output
    stream is modelled by the text it receives. */
module StatsCsv {
  import opened Text
  import opened Decimal
  import Naming

  const Bins: nat := 256

  /** One channel's counters: one 32-bit counter per intensity 0..255. */
  type Counters = s: seq<U32> | |s| == Bins witness seq(Bins, _ => 0)

  /** `chgen::ColourStats`: the red, green and blue counter tables. */
  datatype ColourStats = ColourStats(r: Counters, g: Counters, b: Counters)

  const FieldSeparator: string := ", "
  const LineBreak: string := "\n"

  /** The channel with the given position in the file: 0 red, 1 green, 2 blue. */
  function Channel(s: ColourStats, i: nat): Counters
    requires i < 3
  {
    if i == 0 then s.r else if i == 1 then s.g else s.b
  }

  /** The text one range-for loop writes: each counter in decimal followed by
      the separator. */
  function Line(cs: seq<U32>): string
    decreases |cs|
  {
    if cs == [] then "" else DecimalString(cs[0]) + FieldSeparator + Line(cs[1..])
  }

  /** The whole file: the three channel lines joined by newlines, with no
      newline after the blue line. */
  function CsvText(s: ColourStats): string
  {
    Line(s.r) + LineBreak + Line(s.g) + LineBreak + Line(s.b)
  }

  /** Writing one more counter extends the line by that counter's field. */
  lemma {:induction false} LineSnoc(cs: seq<U32>, c: U32)
    ensures Line(cs + [c]) == Line(cs) + DecimalString(c) + FieldSeparator
    decreases |cs|
  {
    if cs == [] {
      assert [] + [c] == [c];
      assert [c][1..] == [];
    } else {
      assert (cs + [c])[1..] == cs[1..] + [c];
      LineSnoc(cs[1..], c);
    }
  }

  /** A channel line never contains a line break. */
  lemma {:induction false} LineHasNoBreak(cs: seq<U32>)
    ensures '\n' !in Line(cs)
    decreases |cs|
  {
    if cs != [] {
      LineHasNoBreak(cs[1..]);
    }
  }

  /** Appends one channel's counters to the text written so far, one counter
      and one separator per bin, in bin order. */
  method WriteCounters(written: string, cs: seq<U32>) returns (out: string)
    ensures out == written + Line(cs)
  {
    out := written;
    for i := 0 to |cs|
      invariant out == written + Line(cs[..i])
    {
      out := out + DecimalString(cs[i]) + FieldSeparator;
      LineSnoc(cs[..i], cs[i]);
      assert cs[..i + 1] == cs[..i] + [cs[i]];
    }
    assert cs[..|cs|] == cs;
  }

  /** The file GenerateStatsCsv writes for the image at `image` whose
      statistics are `stats`: its path and its text. */
  method GenerateStatsCsv(stats: ColourStats, image: string) returns (path: string, text: string)
    ensures path == Naming.StatsOutputPath(image)
    ensures text == CsvText(stats)
  {
    path := image + Naming.StatsSuffix;
    text := "";
    text := WriteCounters(text, stats.r);
    text := text + LineBreak;
    text := WriteCounters(text, stats.g);
    text := text + LineBreak;
    assert text == Line(stats.r) + LineBreak + Line(stats.g) + LineBreak;
    text := WriteCounters(text, stats.b);
  }

  // ---------------------------------------------------------------------
  // Reading the file back

  /** Reads a sequence of counter fields. */
  function ParseCounters(fields: seq<string>): (r: Option<seq<U32>>)
    ensures r.Some? ==> |r.value| == |fields|
    decreases |fields|
  {
    if fields == [] then Some([])
    else
      match ParseCounter(fields[0])
      case None => None
      case Some(c) =>
        match ParseCounters(fields[1..])
        case None => None
        case Some(rest) => Some([c] + rest)
  }

  /** Reads one channel line: 256 counters, each followed by the separator. */
  function ParseLine(line: string): (r: Option<Counters>)
  {
    var fields := Split(line, FieldSeparator);
    if |fields| != Bins + 1 || fields[Bins] != "" then None
    else
      match ParseCounters(fields[..Bins])
      case None => None
      case Some(cs) => Some(cs)
  }

  /** Reads a whole statistics file: exactly three channel lines. */
  function ParseStatsCsv(text: string): Option<ColourStats>
  {
    var lines := Split(text, LineBreak);
    if |lines| != 3 then None
    else
      match (ParseLine(lines[0]), ParseLine(lines[1]), ParseLine(lines[2]))
      case (Some(r), Some(g), Some(b)) => Some(ColourStats(r, g, b))
      case _ => None
  }

  // ---------------------------------------------------------------------
  // Shape of the file and the round trip

  /** Splitting a channel line on ", " yields the counters' decimal text in
      bin order, then one empty field after the trailing separator. */
  lemma {:induction false} LineFields(cs: seq<U32>)
    ensures var fields := Split(Line(cs), FieldSeparator);
      && |fields| == |cs| + 1
      && fields[|cs|] == ""
      && forall k :: 0 <= k < |cs| ==> fields[k] == DecimalString(cs[k])
    decreases |cs|
  {
    if cs != [] {
      LineFields(cs[1..]);
      SplitLeadingField(DecimalString(cs[0]), FieldSeparator, Line(cs[1..]));
      var rest := Split(Line(cs[1..]), FieldSeparator);
      var fields := Split(Line(cs), FieldSeparator);
      assert fields == [DecimalString(cs[0])] + rest;
      forall k | 1 <= k < |cs| ensures fields[k] == DecimalString(cs[k]) {
        assert fields[k] == rest[k - 1];
        assert cs[1..][k - 1] == cs[k];
      }
    }
  }

  /** Counter fields written in decimal read back as the same counters. */
  lemma {:induction false} ParseWrittenCounters(fields: seq<string>, cs: seq<U32>)
    requires |fields| == |cs|
    requires forall k :: 0 <= k < |cs| ==> fields[k] == DecimalString(cs[k])
    ensures ParseCounters(fields) == Some(cs)
    decreases |cs|
  {
    if cs != [] {
      ParseOfDecimal(cs[0]);
      ParseWrittenCounters(fields[1..], cs[1..]);
      assert [cs[0]] + cs[1..] == cs;
    }
  }

  /** A channel line reads back as the counters it was written from. */
  lemma ParseLineOfLine(cs: Counters)
    ensures ParseLine(Line(cs)) == Some(cs)
  {
    LineFields(cs);
    var fields := Split(Line(cs), FieldSeparator);
    ParseWrittenCounters(fields[..Bins], cs);
  }

  /** The file splits on line breaks into exactly the red, green and blue
      lines, in that order: a break follows the red and green lines and
      nothing follows the blue one. */
  lemma CsvLines(s: ColourStats)
    ensures Split(CsvText(s), LineBreak) == [Line(s.r), Line(s.g), Line(s.b)]
  {
    var r, g, b := Line(s.r), Line(s.g), Line(s.b);
    LineHasNoBreak(s.r);
    LineHasNoBreak(s.g);
    LineHasNoBreak(s.b);
    var tail := g + LineBreak + b;
    assert CsvText(s) == r + LineBreak + tail;
    SplitLeadingField(r, LineBreak, tail);
    SplitLeadingField(g, LineBreak, b);
    SplitNoSeparator(b, LineBreak);
  }

  /** The file ends with the separator after the last blue counter, not
      with a line break. */
  lemma CsvEndsWithSeparator(s: ColourStats)
    ensures var text := CsvText(s); |text| >= 2 && text[|text| - 2..] == FieldSeparator
  {
    LineSnoc(s.b[..Bins - 1], s.b[Bins - 1]);
    assert s.b[..Bins - 1] + [s.b[Bins - 1]] == s.b;
  }

  /** Every line of the file, split on ", ", gives that channel's 256
      counters in bin order followed by one empty field. */
  lemma CsvRecoversCounters(s: ColourStats, i: nat, k: nat)
    requires i < 3 && k < Bins
    ensures var lines := Split(CsvText(s), LineBreak);
      && |lines| == 3
      && var fields := Split(lines[i], FieldSeparator);
      && |fields| == Bins + 1
      && fields[Bins] == ""
      && ParseCounter(fields[k]) == Some(Channel(s, i)[k])
  {
    CsvLines(s);
    LineFields(Channel(s, i));
    ParseOfDecimal(Channel(s, i)[k]);
  }

  /** Reading the written file gives back the statistics it was written from. */
  lemma ParseOfCsv(s: ColourStats)
    ensures ParseStatsCsv(CsvText(s)) == Some(s)
  {
    CsvLines(s);
    ParseLineOfLine(s.r);
    ParseLineOfLine(s.g);
    ParseLineOfLine(s.b);
  }

  /** Fields holding the counters' decimal text and one final empty field
      join back into the channel line. */
  lemma {:induction false} JoinFields(fields: seq<string>, cs: seq<U32>)
    requires |fields| == |cs| + 1 && fields[|cs|] == ""
    requires forall k :: 0 <= k < |cs| ==> fields[k] == DecimalString(cs[k])
    ensures Join(fields, FieldSeparator) == Line(cs)
    decreases |cs|
  {
    if cs != [] {
      JoinFields(fields[1..], cs[1..]);
    }
  }

  /** Parsed counters, each written back, give the fields they came from. */
  lemma {:induction false} WrittenParsedCounters(fields: seq<string>, cs: seq<U32>)
    requires ParseCounters(fields) == Some(cs)
    ensures forall k :: 0 <= k < |cs| ==> fields[k] == DecimalString(cs[k])
    decreases |fields|
  {
    if fields != [] {
      var c := ParseCounter(fields[0]).value;
      var rest := ParseCounters(fields[1..]).value;
      assert cs == [c] + rest;
      ParsedIsWritten(fields[0], c);
      WrittenParsedCounters(fields[1..], rest);
      forall k | 1 <= k < |cs| ensures fields[k] == DecimalString(cs[k]) {
        assert fields[1..][k - 1] == fields[k];
      }
    }
  }

  /** A line that parses is exactly the line written for what it parses to. */
  lemma LineOfParseLine(line: string, cs: Counters)
    requires ParseLine(line) == Some(cs)
    ensures Line(cs) == line
  {
    var fields := Split(line, FieldSeparator);
    WrittenParsedCounters(fields[..Bins], cs);
    JoinFields(fields, cs);
    JoinSplit(line, FieldSeparator);
  }

  /** A file that parses is exactly the file written for what it parses to:
      the format has one spelling per statistics value. */
  lemma CsvOfParse(text: string, s: ColourStats)
    requires ParseStatsCsv(text) == Some(s)
    ensures CsvText(s) == text
  {
    var lines := Split(text, LineBreak);
    LineOfParseLine(lines[0], s.r);
    LineOfParseLine(lines[1], s.g);
    LineOfParseLine(lines[2], s.b);
    JoinSplit(text, LineBreak);
    assert lines[1..][1..] == [lines[2]];
    assert Join(lines[1..], LineBreak) == lines[1] + LineBreak + lines[2];
    assert Join(lines, LineBreak) == lines[0] + LineBreak + Join(lines[1..], LineBreak);
  }
}
