/** The names of the files the program writes next to each image: the whole
    canonical image path, extension included, with a fixed suffix appended
    (main.cpp, GenerateHistogram and GenerateStatsCsv). */
module Naming {
  import opened Paths

  const HistogramSuffix: string := "_hist.png"
  const StatsSuffix: string := "_stats.csv"

  function HistogramOutputPath(image: string): string
  {
    image + HistogramSuffix
  }

  function StatsOutputPath(image: string): string
  {
    image + StatsSuffix
  }

  /** The file written for an image in the selected mode. */
  function OutputPath(image: string, histogram: bool): string
  {
    if histogram then HistogramOutputPath(image) else StatsOutputPath(image)
  }

  /** The output keeps the image's whole last component, its extension
      included, in front of the suffix (so "a.jpg" gives "a.jpg_hist.png"),
      and therefore never names the image itself. */
  lemma OutputKeepsFileName(image: string, histogram: bool)
    ensures var suffix := if histogram then HistogramSuffix else StatsSuffix;
      FileName(OutputPath(image, histogram)) == FileName(image) + suffix
    ensures OutputPath(image, histogram) != image
  {
    if histogram {
      FileNameAppend(image, HistogramSuffix);
    } else {
      FileNameAppend(image, StatsSuffix);
    }
    assert |OutputPath(image, histogram)| > |image|;
  }

  /** Different images never share an output file, in either mode. */
  lemma OutputPathInjective(a: string, b: string, histogram: bool)
    requires OutputPath(a, histogram) == OutputPath(b, histogram)
    ensures a == b
  {
    var suffix := if histogram then HistogramSuffix else StatsSuffix;
    var out := OutputPath(a, histogram);
    assert |a| == |b|;
    assert a == out[..|a|] == b;
  }

  /** A name ending in a suffix whose last five characters are a period and
      three other non-period characters, after a non-empty stem, has those
      five characters' last four as its extension. */
  lemma ExtensionOfSuffix(image: string, suffix: string, e: string)
    requires |suffix| > |e| == 4 && suffix[|suffix| - 4..] == e
    requires e[0] == '.' && e[1] != '.' && e[2] != '.' && e[3] != '.'
    requires Separator !in suffix
    ensures Extension(image + suffix) == e
  {
    FileNameAppend(image, suffix);
    var f := FileName(image + suffix);
    assert f[|f| - 4..] == e;
    assert '.' !in e[1..] by { assert e[1..] == [e[1], e[2], e[3]]; }
    SuffixIsExtension(f, e, image + suffix);
  }

  /** The extension of an output is that of its suffix: ".png" for a
      histogram and ".csv" for statistics. */
  lemma OutputExtension(image: string, histogram: bool)
    ensures Extension(OutputPath(image, histogram)) == (if histogram then ".png" else ".csv")
  {
    if histogram {
      ExtensionOfSuffix(image, HistogramSuffix, ".png");
    } else {
      ExtensionOfSuffix(image, StatsSuffix, ".csv");
    }
  }

  /** A histogram written by one run is itself a supported image for the
      next run over the same directory; a statistics file is not. */
  lemma OutputsOnRerun(image: string)
    ensures CheckSupportedExt(HistogramOutputPath(image))
    ensures !CheckSupportedExt(StatsOutputPath(image))
  {
    OutputExtension(image, true);
    OutputExtension(image, false);
  }
}
