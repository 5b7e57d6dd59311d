# Upload filename check of the lab-results web app

The web app accepts spreadsheet uploads. Before it saves an uploaded file it
checks the file's name with `allowed_file`. A name passes only when it contains a
dot and the text after its **last** dot is one of the whitelisted spreadsheet
extensions `xlsx` or `xls`, ignoring case. This project models that check and the
whitelist it reads, and proves how the check behaves.

The model has two modules:

- `StrOps` (`str_ops.dfy`) models the Python string operations the check uses:
  - `str.lower()` as ASCII case folding (`LowerChar`, `Lower`);
  - the one-character membership test `'.' in s`, which is Dafny's `in` on a sequence;
  - `str.rsplit(sep, 1)` for a one-character separator (`RSplitOnce`);
  - `LastIndexOf`, the last position of a character, which is where `rsplit` cuts.
- `App` (`app.dfy`) models `app.py`:
  - the constant `AllowedExtensions`;
  - the predicate `AllowedFile`, written as `'.' in filename && Lower(Extension(filename)) in AllowedExtensions`;
  - `EndsWithSpreadsheetSuffix`, a separate reference definition: the name ends with `.xlsx` or `.xls`, ignoring case;
  - lemmas tying the check to that reference definition and to each behaviour named below.

`AllowedFile` carries no `ensures` of its own. Its meaning is stated by the
lemmas about it in the table below.

## Model

| member | source | states |
|---|---|---|
| `StrOps.LowerChar` | app.py:21 | per-character `.lower()`: the result is never an upper-case ASCII letter; a character changes exactly when it is `A`..`Z`, and then it becomes the same letter in lower case |
| `StrOps.Lower` | app.py:21 | `.lower()` keeps the length and folds each character on its own: upper-case ASCII letters become lower case and every other character is unchanged |
| `StrOps.LowerKeepsDots` | app.py:20-21 | lower-casing neither creates nor removes a dot, so "contains a dot" is the same before and after `.lower()` |
| `StrOps.LastIndexOf` | app.py:21 | returns `None` exactly when the character does not occur; otherwise it returns an index holding the character with no occurrence after it |
| `StrOps.RSplitOnce` | app.py:21 | `rsplit('.', 1)` returns the whole string when there is no separator; otherwise it returns two parts that rejoin, with the separator between them, to the input, and the second part holds no separator |
| `StrOps.RSplitOnceUnique` | app.py:21 | for any head and any separator-free tail, splitting `head + sep + tail` gives exactly `[head, tail]`, even when the head contains separators |
| `App.AllowedExtensions` | app.py:7 | the whitelist is exactly the two extensions `xlsx` and `xls` |
| `App.Extension` | app.py:21 | `filename.rsplit('.', 1)[1]` for a name containing a dot: the text after the last dot, which holds no dot and is shorter than the name |
| `App.AllowedFile` | app.py:19-21 | `allowed_file`: the name contains a dot and its last-dot extension, lower-cased, is whitelisted; what this means is stated by `App.AllowedFileIffSpreadsheetSuffix` and `App.ExtensionAfterLastDot` |
| `App.ExtensionIsSuffix` | app.py:21 | the extension is the suffix of the name directly after a dot; with `Extension`'s own dot-free guarantee, that dot is the last one |
| `App.WhitelistIsLowerCase` | app.py:7 | every whitelisted extension is already lower case, so comparing a lower-cased extension with it is a case-blind comparison |
| `App.ExtensionAfterLastDot` | app.py:7-21 | for any stem and any dot-free extension, `stem.ext` is accepted exactly when the lower-cased extension is whitelisted; the stem plays no role |
| `App.NoDotRejected` | app.py:20 | a name with no dot is rejected, whatever it ends with |
| `App.TrailingDotRejected` | app.py:21 | for every stem, `stem.` contains a dot, its extension is the empty string, and it is rejected |
| `App.AnyStemAccepted` | app.py:7-21 | `s.xls` and `s.xlsx` are accepted for every stem `s`, including the empty stem |
| `App.ExtensionOfLower` | app.py:21 | lower-casing a dotted name keeps a dot in it and lower-cases its last-dot extension |
| `App.IgnoresCase` | app.py:21 | two names that are equal after lower-casing get the same verdict |
| `App.ExtensionDecides` | app.py:20-21 | two dotted names whose last-dot extensions are equal ignoring case get the same verdict |
| `App.AllowedHasSuffix` | app.py:19-21 | an accepted name ends, ignoring case, with a dot and its lower-cased (whitelisted) extension |
| `App.SuffixIsAllowed` | app.py:7-21 | a name that ends, ignoring case, with a dot and a whitelisted extension is accepted |
| `App.AllowedFileIffSpreadsheetSuffix` | app.py:19-21 | `allowed_file` accepts a name exactly when it ends with `.xlsx` or `.xls`, ignoring case (both directions) |
| `App.ExampleNoDot` | app.py:20 | `xlsx` alone is rejected |
| `App.ExampleLastPartAccepted` | app.py:21 | `report.tar.xlsx` is accepted |
| `App.ExampleLastPartRejected` | app.py:21 | `data.xlsx.txt` is rejected |
| `App.LowerXlsxUpper` | app.py:21 | `"XLSX".lower()` is `"xlsx"` |
| `App.LowerXlsMixed` | app.py:21 | `"Xls".lower()` is `"xls"` |
| `App.ExampleUpperCase` | app.py:21 | `A.XLSX` is accepted |
| `App.ExampleMixedCase` | app.py:21 | `b.Xls` is accepted |
| `App.ExampleCsvRejected` | app.py:7-21 | `a.csv` is rejected |
| `App.ExampleXlsmRejected` | app.py:7-21 | `a.xlsm` is rejected |

## Left out

- The routes `index` (app.py:25-36) and `upload_file` (app.py:39-54) are not modelled. They handle HTTP requests, form fields, `flash` messages, redirects and template rendering.
- The `TextEntry` table and the database session are not modelled (app.py:14-17, 30-35). They are persistence.
- `secure_filename` (app.py:52) is not modelled. It is a werkzeug library call whose code is not part of this model.
- Saving the file and building its path (app.py:53) are filesystem I/O and are not modelled.
- The start-up block (app.py:57-60) and the app configuration (app.py:6, 9-12) are runtime setup and are not modelled.
- `StrOps.LowerChar`, `StrOps.Lower`: model Python's `.lower()` on ASCII letters only. Python also lower-cases non-ASCII letters, and some of them become more than one character. No non-ASCII character lower-cases to `x`, `l` or `s`, so every verdict against the all-ASCII whitelist is the same.
- `StrOps.RSplitOnce`: models `rsplit` only for the single one-character separator the check uses, not for general separators or other `maxsplit` values.
