# CUDAColourHistogram command-line driver, modelled in Dafny

CUDAColourHistogram is a command-line program. It walks a directory
recursively and, for every supported image file it finds, writes either a
rendered colour histogram (`-g`) or a CSV file of per-channel colour
statistics (`-s`) next to the image's canonical path. For a symbolic link
that is next to the link's target, possibly outside the walked tree. The
counting and the rendering happen on a CUDA device, inside the `chgen::ColourHistogramGen` engine. Only the engine's
declaration is available, not its implementation, so this model covers the
driver logic in `CUDAColourHistogram/main.cpp`:

- **Supported-file test** (`CheckSupportedExt`), module `Paths` in `paths.dfy`.
  The test is a byte-for-byte whitelist over `std::filesystem::path::extension()`.
  The extension is modelled as C++17 defines it in [fs.path.decompose] of
  ISO/IEC 14882:2017. It is the suffix of the last path component that starts
  at the rightmost period. It is empty for `.` and `..`, for a name with no
  period, and for a dot-file whose only period is its first character.
- **Mode decision in `main`**, module `CommandLine` in `command_line.dfy`.
  The device check comes first. Then comes the `switch` on `argc`, where
  `case 3` falls through to `default` when the flag is neither `-g` nor `-s`.
- **Statistics CSV** (`GenerateStatsCsv`), module `StatsCsv` in `stats_csv.dfy`,
  with the decimal text of the counters in module `Decimal` (`decimal.dfy`) and
  splitting and joining in module `Text` (`text.dfy`). `ColourStats` holds three
  tables of exactly 256 counters, each of 32 bits. The method that writes the
  file mirrors the three range-for loops and is proved to produce `CsvText`.
  The file is also proved to read back: `ParseStatsCsv` inverts `CsvText` in
  both directions.
- **Output names**, module `Naming` in `naming.dfy`. The histogram goes to
  `<path>_hist.png` and the statistics to `<path>_stats.csv`, where `<path>` is
  the whole image path, extension included.
- **Image list and processing loop**, module `Batch` in `batch.dfy`.
  The list is built with `push_back` during the walk. It is then processed in
  order, and the first image whose processing throws an exception derived
  from `std::exception` ends the run with status 1.
  `RunProgram` ties the whole of `main` together.

Inputs that stand for I/O and for code outside the model:

- `deviceFound` stands for `chgen::CudaCount() >= 1`.
- `argv` is the argument vector, with the program name first, so `argc` is `|argv|`.
- The walk is the sequence of `Entry(path, canonical)` values, in the order
  `recursive_directory_iterator` yields them. `canonical` is `None` when
  `fs::canonical` throws.
- `engineReady` says whether constructing `ColourHistogramGen` completed
  without throwing an exception derived from `std::exception`.
- `failing` is the set of image paths whose processing throws an exception
  derived from `std::exception`, the only kind the `catch` in `main` handles.
- `unwritable` is the set of image paths whose statistics file cannot be
  created or written. `GenerateStatsCsv` never checks its stream, so such an
  image leaves no file and the run goes on; a histogram that cannot be
  written throws instead, and belongs in `failing`.

Notes on the behaviour the model makes visible:

- A histogram output `x_hist.png` itself passes `CheckSupportedExt`
  (`Naming.OutputsOnRerun`). The list is complete before any file is written,
  so a run never picks up its own outputs. A second `-g` run over the same
  directory processes them again, as `x_hist.png_hist.png`.
- The extension test looks at the path the walk yields. The canonical path
  that is stored afterwards can name a file with a different extension, for
  example when the entry is a symbolic link. A directory whose name ends in a
  whitelisted extension also passes the test.
- `CheckSupportedExt` compares the extension, leading period included,
  case-sensitively (main.cpp:18-20), so `photo.JPG` is skipped.
  `GenerateStatsCsv` always writes `", "` after every counter, the last
  blue one included (main.cpp:91-98).

## Model

| member | source | states |
|---|---|---|
| Paths.FileName | CUDAColourHistogram/main.cpp:16 | The last component of the path, the part `extension()` looks at: everything after the last `/`. Its shape is proved in `Paths.FileNameShape` and `Paths.FileNameAppend`. |
| Paths.Extension | CUDAColourHistogram/main.cpp:16 | `fpath.extension()` under C++17: empty for `.`, `..` and a last component with no period after its first character, otherwise the suffix from the last period. Characterised in `Paths.ExtensionShape`. |
| Paths.CheckSupportedExt | CUDAColourHistogram/main.cpp:14-28 | The eight-way byte-for-byte comparison of the extension with `.jpg .jpeg .png .tif .tiff .bmp .webp .avif`. Characterised in `Paths.SupportedIffSuffix`. |
| Paths.ExtensionShape | CUDAColourHistogram/main.cpp:16 | `fpath.extension()` is empty exactly for `..` and for last components with no period after the first character. Otherwise it is a proper suffix of the last component that starts with its only period. |
| Paths.SupportedIffSuffix | CUDAColourHistogram/main.cpp:14-27 | `CheckSupportedExt` accepts a path exactly when its last component ends with one of `.jpg .jpeg .png .tif .tiff .bmp .webp .avif` and has at least one character before it. |
| Paths.AppendSupported | CUDAColourHistogram/main.cpp:16-20 | Appending a whitelisted extension to a path gives an accepted path exactly when the path's last component is non-empty. So `a.tar.png` is accepted and `dir/.png` is rejected. |
| Paths.LastExtensionOnly | CUDAColourHistogram/main.cpp:16-20 | A last component ending in a period-led suffix that is not whitelisted is rejected, whatever comes before it. Examples are `a.png.bak`, `photo.JPG` and `a.`, whose extension is the lone period. |
| Paths.NoPeriodRejected | CUDAColourHistogram/main.cpp:16-27 | A last component without a period is rejected. |
| Paths.DotFileRejected | CUDAColourHistogram/main.cpp:16-27 | A dot-file, whose only period is its first character, is rejected. |
| Paths.AcceptsDoubleExtension | CUDAColourHistogram/main.cpp:16-27 | `<dir>/a.tar.png` is accepted, for any directory. |
| Paths.RejectsLaterExtension | CUDAColourHistogram/main.cpp:16-27 | `<dir>/a.png.bak` is rejected. |
| Paths.RejectsUpperCase | CUDAColourHistogram/main.cpp:18-20 | `<dir>/photo.JPG` is rejected, because the comparison is case-sensitive. |
| Paths.RejectsDotFile | CUDAColourHistogram/main.cpp:16-27 | `<dir>/.png` is rejected. |
| Paths.RejectsNoPeriod | CUDAColourHistogram/main.cpp:16-27 | `<dir>/png` is rejected. |
| Paths.FileNameAppend | CUDAColourHistogram/main.cpp:16 | Appending text without a separator extends the last component by that text. |
| Paths.LastIndexOfSpec | CUDAColourHistogram/main.cpp:16 | The rightmost-occurrence search used for the last separator and the last period finds an occurrence, and no occurrence follows it. |
| CommandLine.SelectMode | CUDAColourHistogram/main.cpp:104-130 | With no device the result is `NoDevice`, whatever the arguments. With a device, a run is selected exactly when `argc == 3` and `argv[1]` is `-g` or `-s`; it draws histograms exactly when the flag is `-g`, and its root is `argv[2]`. Every other invocation gives `Usage`. |
| CommandLine.EarlyExitCode | CUDAColourHistogram/main.cpp:106-130 | A missing device returns 1 and the usage text returns 0. |
| CommandLine.RunOnlyFromInvocation | CUDAColourHistogram/main.cpp:117-123 | A run is selected only by `[program, flag, root]` with the flag of that mode. |
| CommandLine.InvocationSelectsRun | CUDAColourHistogram/main.cpp:117-123 | `[program, "-g"/"-s", root]` selects the histogram or statistics run over `root`. |
| CommandLine.OtherFlagPrintsUsage | CUDAColourHistogram/main.cpp:117-129 | Three arguments with any other flag fall through from `case 3` to the usage text. |
| StatsCsv.Line | CUDAColourHistogram/main.cpp:91-92 | The text one range-for loop sends: each counter in decimal followed by `", "`, in bin order. Its fields are proved in `StatsCsv.LineFields`. |
| StatsCsv.CsvText | CUDAColourHistogram/main.cpp:91-98 | The whole file: the red, green and blue lines with `std::endl` after the first two only. Its shape and round trip are proved in `StatsCsv.CsvLines`, `StatsCsv.ParseOfCsv` and `StatsCsv.CsvOfParse`. |
| StatsCsv.GenerateStatsCsv | CUDAColourHistogram/main.cpp:89-100 | The stream is opened at `<image>_stats.csv`, and the text sent to it is `CsvText(stats)`. |
| StatsCsv.WriteCounters | CUDAColourHistogram/main.cpp:91-92 | One range-for loop appends, for each bin in order, the counter in decimal followed by `", "`. |
| StatsCsv.CsvLines | CUDAColourHistogram/main.cpp:91-98 | Splitting the file on newlines gives exactly three lines: red, then green, then blue. No newline follows the blue line. |
| StatsCsv.CsvEndsWithSeparator | CUDAColourHistogram/main.cpp:97-98 | The file ends with the `", "` after the last blue counter. |
| StatsCsv.LineFields | CUDAColourHistogram/main.cpp:91-92 | Splitting a channel line on `", "` yields each counter's decimal text in bin order, then one trailing empty field. |
| StatsCsv.CsvRecoversCounters | CUDAColourHistogram/main.cpp:91-98 | Each of the three lines splits into 257 fields. The last field is empty, and field `k` reads back as that channel's counter for bin `k`. |
| StatsCsv.ParseOfCsv | CUDAColourHistogram/main.cpp:91-98 | Reading the written file gives back the exact `ColourStats`. |
| StatsCsv.CsvOfParse | CUDAColourHistogram/main.cpp:91-98 | Any text that reads as statistics is exactly the file written for them, so the format has one spelling per value. |
| StatsCsv.ParseLineOfLine | CUDAColourHistogram/main.cpp:91-92 | One channel line reads back as its 256 counters. |
| StatsCsv.LineOfParseLine | CUDAColourHistogram/main.cpp:91-92 | A line that reads as counters is exactly the line written for them. |
| StatsCsv.LineSnoc | CUDAColourHistogram/main.cpp:91-92 | Each loop iteration extends the line by one counter and one separator. |
| StatsCsv.LineHasNoBreak | CUDAColourHistogram/main.cpp:91-92 | A channel line contains no newline. |
| Decimal.DecimalString | CUDAColourHistogram/main.cpp:92 | A counter is written as at least one decimal digit with no leading zero (text starting with `0` is exactly `0`, the text of zero), and never contains `,` or a newline. |
| Decimal.ParseOfDecimal | CUDAColourHistogram/main.cpp:92 | The decimal text of a 32-bit counter reads back as that counter. |
| Decimal.ParsedIsWritten | CUDAColourHistogram/main.cpp:92 | Text that reads as a counter is exactly the text written for it. |
| Decimal.DigitsOfDecimal | CUDAColourHistogram/main.cpp:92 | The written text is canonical decimal and denotes the counter's value. |
| Decimal.DecimalOfDigits | CUDAColourHistogram/main.cpp:92 | Canonical decimal text is the text written for its value. |
| Naming.HistogramOutputPath | CUDAColourHistogram/main.cpp:54 | The histogram is written to the whole image path followed by `_hist.png`. |
| Naming.StatsOutputPath | CUDAColourHistogram/main.cpp:89 | The statistics stream is opened at the whole image path followed by `_stats.csv`. |
| Naming.OutputPath | CUDAColourHistogram/main.cpp:158-166 | The output of an image in the selected mode: the histogram path with `-g`, the statistics path with `-s`. |
| Naming.OutputKeepsFileName | CUDAColourHistogram/main.cpp:54 | The output's last component is the image's last component, extension included, followed by `_hist.png` or `_stats.csv` (line 89). The output never names the image itself. |
| Naming.OutputPathInjective | CUDAColourHistogram/main.cpp:54 | Different images never share an output file, in either mode (line 89 for statistics). |
| Naming.OutputExtension | CUDAColourHistogram/main.cpp:54 | The output's extension is `.png` for a histogram and `.csv` for statistics (line 89). |
| Naming.OutputsOnRerun | CUDAColourHistogram/main.cpp:14-27 | A written histogram passes `CheckSupportedExt`; a written CSV does not. |
| Batch.Kept | CUDAColourHistogram/main.cpp:135-150 | The canonical paths of the walk entries that pass a test and canonicalise, in walk order. Its properties are proved in `Batch.KeptMembers` and `Batch.KeptOrder`. |
| Batch.ImageFiles | CUDAColourHistogram/main.cpp:132-150 | The list `imgfiles`: `Kept` with the test `CheckSupportedExt`. Characterised in `Batch.ImageFilesMembers`. |
| Batch.CollectImageFiles | CUDAColourHistogram/main.cpp:132-150 | The list built by `push_back` during the walk is `ImageFiles(walk)`. An entry whose canonicalisation throws is skipped and the walk goes on. |
| Batch.KeptAppend | CUDAColourHistogram/main.cpp:132-150 | The list of a walk in two parts is the list of the first part followed by that of the second. |
| Batch.KeptMembers | CUDAColourHistogram/main.cpp:132-150 | A path is in the list exactly when some walk entry passes the extension test and canonicalises to it. |
| Batch.ImageFilesMembers | CUDAColourHistogram/main.cpp:132-150 | A path is in the program's image list exactly when some walk entry with a supported extension (`CheckSupportedExt`) canonicalises to it. |
| Batch.KeptStep | CUDAColourHistogram/main.cpp:132-150 | Walking one more entry appends its canonical path to the list when the entry passes the test and canonicalises, and leaves the list unchanged otherwise. |
| Batch.KeptPosition | CUDAColourHistogram/main.cpp:132-150 | A kept entry stands in the list at the number of entries kept before it. |
| Batch.KeptOrder | CUDAColourHistogram/main.cpp:132-150 | Of two kept entries, the one the walk yields first stands first in the list. |
| Batch.FirstFailure | CUDAColourHistogram/main.cpp:153-172 | Gives the position of the first image whose processing throws a `std::exception`, or the list length when none does. |
| Batch.ProcessImages | CUDAColourHistogram/main.cpp:153-172 | Images are processed in list order. The output files left on disk are those of the images before the first one that throws a `std::exception`, less, in `-s` mode, the statistics files that could not be written. The run fails exactly when an image throws one; an unwritable statistics file does not end it. |
| Batch.Produced | CUDAColourHistogram/main.cpp:89-100 | Whether an image's output is on disk once its generator returns: always for a histogram, whose failed write throws (main.cpp:57-63); for statistics only when the unchecked stream could be written. |
| Batch.Completed | CUDAColourHistogram/main.cpp:153-166 | The output files on disk after the generators for the given images returned, in order. Characterised in `Batch.CompletedMembers` and `Batch.CompletedHistograms`. |
| Batch.CompletedMembers | CUDAColourHistogram/main.cpp:53-63 | An output file is on disk exactly when it belongs to a processed image whose output was produced: always for a histogram (a failed write throws), and for statistics only when the stream could be written (main.cpp:89-100 never checks it). |
| Batch.CompletedHistograms | CUDAColourHistogram/main.cpp:53-63 | In `-g` mode every image processed without throwing leaves its `_hist.png`, so the files on disk are the output paths of all processed images. |
| Batch.RunProgram | CUDAColourHistogram/main.cpp:104-174 | With no device: status 1 and nothing written. On the usage path: status 0 and nothing written. On a run: the output files left on disk are those of the listed images before the first one that throws a `std::exception` (none if the engine's constructor throws one), less, in `-s` mode, the statistics files that could not be written. The status is 0 exactly when the engine was constructed and no image threw, 1 otherwise, so an unwritable statistics file still gives status 0. |

## Left out

- `ColourHistogramGen` (its constructor, destructor, `Analyse`, `GetColourStats` and `GetHistogramImage`) is not part of this model. Only its declaration exists in the source. The statistics are an input of the CSV writer, and nothing is said about how they are counted or how the histogram image is rendered.
- `chgen::CudaCount()`, the CUDA kernels and their atomic counters are not modelled. They are device and concurrency code; the device check is the boolean `deviceFound`.
- SAIL image loading, the conversion to RGB888 and the writing of the histogram PNG are not modelled. They are a foreign library. Whether processing an image throws a `std::exception` is given as the set `failing`.
- `recursive_directory_iterator`, `fs::canonical`, `std::ofstream`, and the console and error output are I/O. Only their results are modelled: the walk, the canonical paths, the text sent to each stream and whether each statistics stream could be written (the set `unwritable`).
- The walk throwing (for example on a root path that does not exist) is not modelled. That exception is raised outside the `try` block and ends the process abnormally; the walk is taken to complete.
- Batch.RunProgram: a throw of a type not derived from `std::exception`, from the engine's constructor, `Analyse` or its getters, escapes the `catch` in `main` and ends the process through `std::terminate`; that abnormal end is not modelled, because the engine's code is not part of this model.
- Batch.RunProgram: processing failure is modelled as a property of the image path. An image listed twice, through two links to one file, fails both times or neither time.
- Batch.RunProgram: the outputs listed are the files fully produced. A partial file left by an image that fails midway, or by a statistics stream that fails after opening, is not modelled.
- Paths: only POSIX generic-format paths are modelled, with `/` as the only separator and no root name. Windows `\` separators and drive prefixes such as `C:` are not.
- StatsCsv: `std::endl` is modelled as the character `\n`. The flush it performs and the newline translation of a text-mode stream on Windows are not modelled.
- Passing `ColourHistogramGen` by value into `GenerateHistogram` and `GenerateStatsCsv` is not modelled. It copies an object that owns raw device pointers, which is a resource-ownership matter rather than behaviour.
- The unused `len` in both generators is not modelled, and the code validates no pixel-buffer length.
