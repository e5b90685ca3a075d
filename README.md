# JPG to DOCX converter — a Dafny model of its conversion and packaging core

The program is a one-page Streamlit app (`app.py`). A user uploads JPEG files
and presses "Convert All to DOCX". Each image is embedded in a new Word
document 6 inches wide. Every document that was produced is written into one
in-memory ZIP archive, and the app then shows how many conversions succeeded,
how many failed and how many files there were.

This project models the parts of that program that are its own logic:

- `wrappers.dfy` — `Option`, `byte` and `Bytes`.
- `naming.dfy` (module `Naming`) — how an archive entry is named:
  `file.name.rsplit('.', 1)[0] + ".docx"`. `Stem` cuts the name at its last
  dot and keeps a dot-free name whole. The lemmas show that this is the only
  split at a dot with a dot-free tail, that exactly one dot is removed, and
  they work the examples `a.b.jpg`, `photo` and `.jpg`.
- `converter.dfy` (module `Converter`) — `convert_jpg_to_docx`. Image
  decoding (PIL) and document building and saving (python-docx) are foreign
  code, so they are passed in as the oracles of a `Libraries` value. Each
  oracle either answers or fails. Every failure becomes `Failed`, as the
  single `except Exception` handler turns it into `None`.
- `packager.dfy` (module `Packager`) — the batch loop. `ConvertAll` is a
  method with a `while` loop. It keeps two counters and writes into a
  `ZipWriter` object whose `entries` list grows by one on each `WriteStr`.
  The method is proved against the specification functions `Archive`,
  `SuccessCount` and `FailureCount`. The lemmas prove:
  - every file is counted once;
  - there is one entry per success and none per failure;
  - entries keep the upload order and carry each upload's own document;
  - a failure does not abort the batch;
  - duplicate names are written twice.

Two behaviours of the code are easy to miss:

- Two uploads with the same stem produce two `writestr` calls. `zipfile`
  keeps both entries under the same name, so the archive holds two entries.
  `zipfile` only warns about the duplicate name, and a later read by that
  name finds the second entry. `DuplicateStemsBothWritten` states this.
- The unused aspect ratio `height / width` (line 51) is not quite dead. It
  raises `ZeroDivisionError` for an image of zero width, and the handler turns
  that into a failed conversion. `ConvertJpgToDocx` fails in that case.

A failed conversion carries no reason. The function returns `None`, and its
message only goes to `st.error`, which is not modelled.

## Model

| member | source | states |
|---|---|---|
| `Naming.LastIndexOf` | app.py:106 | the search `rsplit` does: the result, if any, is an index holding the character with no later occurrence, and there is no result exactly when the character does not occur |
| `Naming.Stem` | app.py:106 | `rsplit('.', 1)[0]` is a prefix of the name; it is the whole name when there is no dot, and otherwise it stops just before a dot with no dot after it |
| `Naming.StemOfSplit` | app.py:106 | uniqueness: for any `head + "." + tail` with a dot-free `tail`, the stem is `head` |
| `Naming.StemIsNameIff` | app.py:106 | the stem equals the name if and only if the name has no dot |
| `Naming.StemDotCount` | app.py:106 | the stem has exactly one dot fewer than a dotted name, the same number for a dot-free name, and never more |
| `Naming.EntryName` | app.py:106-107 | a name without a dot is kept whole and gets `.docx` appended; otherwise the name is cut at a dot with no dot after it (its last dot) and `.docx` is appended |
| `Naming.EntryNameReplacesExtension` | app.py:106-107 | for any `head + "." + ext` with a dot-free `ext`, the entry name is `head.docx`: only the text from the last dot on is replaced |
| `Naming.EntryNameExamples` | app.py:106-107 | `a.b.jpg` gives `a.b.docx`, `photo` gives `photo.docx`, `.jpg` gives `.docx` |
| `Converter.DisplayWidth` | app.py:50-58 | landscape and portrait both give the same width, `max_width` = 6 inches |
| `Converter.ConvertJpgToDocx` | app.py:31-77 | converts exactly when the image opens with a non-zero width and the document is built and saved at 6 inches; the result is then that document; every other outcome is a failure, never an escaping exception |
| `Converter.ConversionIgnoresOrientation` | app.py:46-66 | the decoded size does not influence the document: two decoders that both open the image with a non-zero width give the same result |
| `Converter.ConversionIgnoresName` | app.py:46-73 | the document depends only on the uploaded content, not on the file name |
| `Packager.ZipWriter.constructor` | app.py:94 | a new archive has no entries |
| `Packager.ZipWriter.WriteStr` | app.py:107 | `writestr` appends exactly one entry with the given name and bytes and keeps the earlier entries, even when the name is already present |
| `Packager.EntriesFor` | app.py:104-110 | the `if docx_buffer:` branch: an upload contributes at most one entry, exactly one when it converts, named by its entry name and holding its document |
| `Packager.SuccessIndices` | app.py:95-110 | the positions of the uploads that convert, strictly increasing, and a position is listed if and only if that upload converts |
| `Packager.ConvertAll` | app.py:89-110 | the loop's archive and counters equal the specification's; successful + failed equals the number of uploads; entries equal successes |
| `Packager.TallyCoversEveryFile` | app.py:91-110 | every upload is counted once: successes plus failures equal the total shown at line 127 |
| `Packager.ArchiveSizeIsSuccessCount` | app.py:104-110 | the archive has exactly as many entries as there are successful conversions |
| `Packager.ArchiveEntries` | app.py:95-107 | entry k is named after the k-th upload that converted and holds exactly that upload's document, so entries follow the upload order |
| `Packager.ArchiveAppend` | app.py:95-110 | in a single run over the uploads `a + b`, the archive is the archive of `a` followed by the archive of `b` |
| `Packager.FailureAddsNothing` | app.py:75-77 | a failed upload does not abort the batch: the archive is the same as if that upload had not been there |
| `Packager.DuplicateStemsBothWritten` | app.py:106-108 | two uploads with the same stem that both convert give two entries with the same name, and both count as successful |

## Left out

- Streamlit page set-up, uploader, columns, status messages, button, metrics,
  download button and `st.error` messages (app.py:8-29, 76, 80-86, 112-138).
  These are presentation only. The "run only when files were uploaded" guard
  at line 80 is part of this, so `ConvertAll` also accepts an empty batch.
- The progress fraction `(idx + 1) / len(...)` and the value of the aspect
  ratio (lines 51, 97). They are floating-point values with no effect on the
  output. Only the zero-width failure of the aspect ratio is modelled.
- PIL image decoding, python-docx document construction and serialisation,
  and the ZIP byte format. These are foreign libraries. They are the oracles
  of `Libraries`, and the archive is its list of entries. Closing the archive
  at the end of the `with` block only adds ZIP bookkeeping. The model does not
  include it.
- Since the oracles are functions, equal content always gives the same
  document. The model does not capture a library that would give different
  bytes for the same input.
- The `BytesIO` seek and read plumbing (lines 61-63, 69-71, 112). It amounts
  to passing the whole upload content on once, as the model does.
- `Packager.ZipWriter.WriteStr`: taken never to fail. At app.py:107 it sits
  outside the converter's `try`/`except`, so an exception there (running out
  of memory, a file name `zipfile` cannot encode) would leave the `with`
  block and end the whole run: no later upload would be converted and no
  counts shown. `ConvertAll` always finishes, and "a failure does not abort
  the batch" covers conversion failures only.
- `Converter.DisplayWidth`: the width is counted in whole inches (6). The
  conversion `Inches(6.0)` to the document's internal units is foreign code.
