# Clean-Image-Extractor: a Dafny model of the batch driver

Clean-Image-Extractor turns a directory of photographed or scanned pages into
text files. `main` lists the image directory and keeps the names that end in
`.jpg`, `.png` or `.jpeg`, ignoring case. It then hands the i-th kept file
(counting from 0) to `extract_text` together with the output path
`text{i+1}.txt` in the output directory. `extract_text` reads the image with
OpenCV and returns early if nothing could be read. Otherwise it cleans the
image (grayscale, blur, Otsu threshold, closing), runs Tesseract on it with
language `chi_sim` and configuration `--psm 6`, and writes the text to the
output file. Any exception raised inside `extract_text` is caught and
printed, so a failing job does not stop the loop. The loop can still stop
early if the progress message `main` prints after each job fails, because
that message is outside the `try` (see "## Left out").

The model has six modules, one file each:

- `Text` (text.dfy): `str.lower` and `str.endswith`, and `str(n)` for a
  natural number. It proves that decimal rendering and reading back are
  inverse, so rendering is one-to-one.
- `Paths` (paths.dfy): the two-argument POSIX `os.path.join`. It proves that
  joining relative names onto one directory is one-to-one.
- `Selection` (selection.dfy): the filter at line 44, `Select`. It proves the
  membership property, idempotence and case-insensitivity. It also gives the
  strictly rising positions of the selected names, which makes the selection
  a subsequence of the listing.
- `Naming` (naming.dfy): `text{i+1}.txt` and its inverse parser. Output names
  are one-to-one, and one run's names are exactly `text1.txt` to `text{N}.txt`.
- `Extraction` (extraction.dfy): the stages of one job as opaque function
  parameters (`Pipeline`). Each stage may raise. `Job` is the outcome of
  `extract_text`. The class `OutputDirectory` holds the output files as a
  `map<string, string>` from path to contents. Its method `ExtractText`
  follows `extract_text` with early returns. Its method `Run` is `main`'s
  `for` loop, proved against the fold `RunJobs`. The lemmas about `RunJobs`
  say what the run changes. Each output holds its job's text when the job
  wrote it, and otherwise keeps what it held before the run. Every other
  file is left alone.
- `Wrappers` (wrappers.dfy): `Option`.

The hard-coded directories of `main` (lines 38-39) and the result of
`os.listdir` are parameters of `Run`.

The code accepts three extensions. It names outputs sequentially as
`text{i+1}.txt` and writes the recognizer's output untrimmed. It processes
the files in one sequential loop, produces no summary, and does not check
that the input directory exists.

## Model

| member | source | states |
|---|---|---|
| `Selection.Select` | program.py:44 | the selection is no longer than the listing, and every selected name passes the extension test |
| `Selection.SelectMembership` | program.py:44 | a name is selected if and only if it is in the listing and its lower-cased form ends in `.jpg`, `.png` or `.jpeg` |
| `Selection.SelectedPositions` | program.py:44 | each selected name is the listing entry at a strictly rising position, so the selection is a subsequence of the listing in its original order |
| `Selection.SelectedPositionsExactly` | program.py:44 | the positions kept are exactly those whose entry passes the extension test, so no image name is dropped |
| `Selection.SelectIdempotent` | program.py:44 | filtering the selection again returns it unchanged |
| `Selection.CaseVariantsAgree` | program.py:44 | two names equal after lower-casing are both selected or both excluded |
| `Selection.UpperVariantAgrees` | program.py:44 | a name and its upper-cased form are both selected or both excluded |
| `Selection.SelectIgnoresCase` | program.py:44 | two listings whose entries agree up to case select the same positions |
| `Selection.AllowedExtensionSelected` | program.py:44 | any name ending in `.jpg`, `.png` or `.jpeg` in any mix of case is selected |
| `Selection.RejectedExamples` | program.py:44 | `x.bmp`, `x.tiff` and `x.jpg.txt` are excluded |
| `Text.LowerOfUpper` | program.py:44 | lower-casing is idempotent and gives the same result on a string and on its upper-cased form |
| `Text.LowerWithoutCapitals` | program.py:44 | lower-casing leaves a string without capital letters unchanged |
| `Text.Decimal` | program.py:48 | the decimal form of a number is a non-empty digit string with no leading zero |
| `Text.DecimalValueOfDecimal` | program.py:48 | reading back the decimal form of n gives n |
| `Text.DecimalOfDecimalValue` | program.py:48 | rendering the value of a canonical digit string gives that string |
| `Text.DecimalInjective` | program.py:48 | different numbers have different decimal forms |
| `Paths.JoinRelative` | program.py:47-48 | joining a relative name onto a directory prefixes it with the directory and at most one separator |
| `Paths.JoinInjective` | program.py:47-48 | within one directory, different relative names give different joined paths |
| `Naming.ParseInvertsOutputName` | program.py:46-48 | the output name of 0-based position i reads back as i |
| `Naming.OutputNameInvertsParse` | program.py:46-48 | a name that reads back as index i is exactly `text{i+1}.txt` |
| `Naming.OutputNameInjective` | program.py:48 | different positions get different output names |
| `Naming.OutputNamesOfBatch` | program.py:46-48 | the names of a batch of n files are exactly the names reading back as an index below n: `text1.txt` to `text{n}.txt`, no gaps |
| `Naming.OutputPathInjective` | program.py:48 | no two positions of one run share an output path |
| `Extraction.JobWrittenExactly` | program.py:22-32 | a job writes text t if and only if the image decodes, is cleaned, is recognized as t and the output file opens |
| `Extraction.JobUnreadableExactly` | program.py:24-27 | a job stops early without writing if and only if decoding yields nothing |
| `Extraction.PlanOutputsDistinct` | program.py:44-48 | the output files of one run are pairwise distinct |
| `Extraction.RunJobsElsewhere` | program.py:46-49 | a file that is no task's output is left exactly as it was |
| `Extraction.RunJobsAt` | program.py:22-49 | task i's output holds its job's text if the job wrote it; after a decode that yields nothing or a caught failure, it is exactly as before the run |
| `Extraction.RunJobsEffect` | program.py:22-49 | the two previous statements for every task and every file at once |
| `Extraction.OutputDirectory.ExtractText` | program.py:22-34 | returns the job's outcome; writes the recognized text to the output file on success, and leaves the directory unchanged after an unreadable image or any caught exception |
| `Extraction.OutputDirectory.Run` | program.py:44-49 | visits every selected file in order, once each, with `text{i+1}.txt`; the directory equals the fold of the job outcomes, each output holds its text or is unchanged, and nothing else changes |

## Left out

- `clean_image` (program.py:10-19) is an opaque stage `clean` of `Pipeline`. Grayscale conversion, blur, Otsu thresholding and closing are OpenCV calls, and the blur involves floating point.
- `pytesseract.image_to_string` (program.py:30) is an opaque stage `ocr`. It receives the constants `chi_sim` and `--psm 6` and may raise.
- `cv2.imread` (program.py:24) is an opaque stage `imread`. Its `None` for an unreadable file is `Ok(None)`.
- `os.listdir` (program.py:44) is the `listing` parameter of `Run`. The `FileNotFoundError` it raises for a missing image directory ends the program uncaught; the model does not represent that crash.
- `os.path.exists` and `os.makedirs` (program.py:41-42) are not modelled. The output directory is a map that is always present.
- Writing the output (program.py:31-32): a write failure is modelled as `open` raising, which leaves the file untouched. An exception after a successful `open` can leave the file truncated or partly written; the model does not capture that. UTF-8 encoding is not modelled either.
- Text.Lower: lower-cases only the ASCII letters A-Z, where Python's `str.lower` follows Unicode. The selection verdict is the same, because the allowed suffixes are ASCII and no non-ASCII character lower-cases to one of their letters.
- Paths.Join: follows POSIX `posixpath.join`; the Windows rules of `ntpath` are not modelled.
- The `print` diagnostics (program.py:26, 34, 50) are not modelled. `JobOutcome` records which of them a job reaches: `Unreadable` for line 26, `Failed(message)` for line 34.
- File names that are not valid Unicode are not modelled: a Dafny `string` cannot hold the lone surrogates POSIX `os.listdir` uses for undecodable bytes. For such a name the progress message at program.py:50, which is outside the `try`, can raise `UnicodeEncodeError`. That ends `main` before the remaining files are processed; the model's `Run`, which visits every selected file, does not capture that.
- Exceptions that `except Exception` does not catch, such as `KeyboardInterrupt`, are not modelled.
