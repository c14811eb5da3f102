# Bulk certificate generation: a verified model of the composition core

The application fills a one-page PDF certificate template with three texts:
the participant's name, the certificate id and the course duration. Each text
is placed according to a *position table* authored in a 1084×799 browser
editor. The positions are stored in `positions.json`. A single certificate
can be generated, or a whole CSV file can be turned into a zip archive with
one certificate per row.

This project models the part of `app.py` that decides what ends up on the
page, and proves properties of it:

| module | file | models |
|---|---|---|
| `Text` | `text.dfy` | Python's `str.replace` (single left-to-right pass), `str.strip(chars)` and ASCII `str.lower` |
| `Numbers` | `numbers.dfy` | the decimal subset of Python `float()` on strings |
| `Fonts` | `fonts.dfy` | `FONT_MAPPING` and the `strip("'")` + `get(…, 'Helvetica')` lookup |
| `Coordinates` | `coordinates.dfy` | `convert_coordinates`: editor canvas → landscape-letter page (792×612 pt) |
| `Uploads` | `uploads.dfy` | `allowed_file` |
| `Positions` | `positions.dfy` | `save_positions` and `load_positions`, with the positions file as an input value (`Store`) |
| `Compositor` | `compositor.dfy` | the draw loop of `generate_certificate`, as a list of draw commands, and the merge onto template page 0 |
| `Batch` | `batch.dfy` | the row loop of `upload_csv`: one archive entry per CSV row, all or nothing |

The model has the following shape.

- **Loops are methods.** The loops of the source are methods with loop
  invariants:
  - `SavePositions`
  - `ReloadSizes` (the loop inside `load_positions`)
  - `DrawOverlay` (the canvas loop)
  - `GenerateArchive` (the zip loop)
- **Each method matches a function.** Each method is proved equal to a
  function: `Cleaned`, `Load`, `Plan` and `Archive` respectively. The
  properties are lemmas about those functions.
- **ReportLab is an input value.** `Renderer` stands for ReportLab:
  - `width` is `stringWidth`, a non-negative real;
  - `raises` says whether the `try` block of the loop body throws for that
    font, size and text.
- **The template PDF is a value.** It is either missing, or a list of pages.
  A page is a background plus the commands stamped onto it.
- **Errors are values.** `MissingKey(field, key)` models a `KeyError` on
  `pos[key]`. `NotANumber(field, key)` models a `ValueError` from `float()`.
  `AssetNotFound` means the template cannot be read, and `EmptyTemplate`
  means it has no page 0. They are reported in the order Python evaluates
  the lookups: `left`, `top`, `float(left)`, `float(top)`, `fontStyle`,
  `fontSize`, `float(fontSize)`.

Some behaviours of `app.py` are kept exactly as written:

- **Unit removal is one pass.** `str.replace('px', '')` makes a single
  left-to-right pass, so a saved and reloaded position table does not always
  give back the values that were saved: `"ppxx"` is saved as `"px"` and then
  reloaded as `""`. `Positions.SaveLoadRoundTrip` states the exact round trip
  and `Positions.SaveLoadLosesDoubledUnit` exhibits the loss.
- **Fonts use one table.** `FONT_MAPPING` (`app.py:73-83`) maps the seven
  Cooper fonts to themselves and the browser names `Arial` and
  `Times New Roman` to `Helvetica` and `Times-Roman`. Any other name falls
  back to `Helvetica`. `Fonts.FontMapping` is built the same way. The lookup
  does not check that a Cooper font was actually registered. Registration
  failures are only printed (`app.py:66-70`), so the lookup still returns
  the Cooper name. `setFont` then raises, and the `except` branch draws the
  text uncentred in Helvetica. The model reaches that branch through the
  `raises` flag of `Renderer`.
- **There are two default tables.** The `positions.json` default written at
  start-up (`app.py:338-344`) differs from the one in `load_positions`: its
  `course_duration` font is `CooperBlkBT-Italic` instead of
  `CooperLtBT-Italic`. The model uses the `load_positions` table, and
  `Positions.DefaultTablesDiffer` states the difference.

## Model

| member | source | states |
|---|---|---|
| Text.Replace | app.py:131-133 | `str.replace` with a replacement no longer than the pattern never lengthens the string |
| Text.ReplaceAbsent | app.py:131-133 | a string without the pattern is returned unchanged |
| Text.RemovePxIdentityIff | app.py:131-133 | removing `"px"` leaves a value unchanged exactly when it contains no `"px"` |
| Text.RemovePxShortens | app.py:131-133 | a value containing `"px"` gets strictly shorter |
| Text.RemovePxConcat | app.py:131-133 | removal distributes over concatenation unless a `p` and an `x` meet at the seam |
| Text.RemovePxUnitSuffix | app.py:160 | a trailing unit `"px"` is dropped: `"46px"` cleans like `"46"` |
| Text.RemovePxNotIdempotent | app.py:101 | one pass over `"ppxx"` leaves `"px"`, and a second pass leaves `""` |
| Text.StripLeft | app.py:159 | `lstrip` removes the longest prefix made of the given characters, and what remains does not start with one |
| Text.StripRight | app.py:159 | `rstrip` removes the longest suffix made of the given characters, and what remains does not end with one |
| Text.StripIsInfix | app.py:159 | `strip` returns a middle slice whose cut-off ends consist of stripped characters and whose own ends are not |
| Text.StripNoop | app.py:159 | a string whose ends are not stripped characters is returned unchanged |
| Text.StripWrapped | app.py:159 | wrapping a string in stripped characters does not change what `strip` returns |
| Text.Lower | app.py:26 | the result has the same length and each character lower-cased |
| Numbers.ParseFloatAccepts | app.py:146-147 | `float()` succeeds exactly on a decimal literal after whitespace is stripped; a negative value comes from a leading `-` |
| Numbers.WhitespaceIgnored | app.py:146-147 | whitespace before and after a number does not change what `float()` returns |
| Numbers.NegatedLiteral | app.py:146-147 | `float()` accepts every unsigned literal `u`, and `float("-" + u)` is `-float(u)` |
| Numbers.PlusLiteral | app.py:146-147 | `float("+" + u)` equals `float(u)` for an unsigned literal `u` |
| Numbers.DigitsLiteral | app.py:146-147 | `float()` of a non-empty digit string is the whole number its digits spell |
| Numbers.DecimalPointShift | app.py:146-147 | `float(ip + "." + fp)` is the value of the digits `ip + fp` with the point moved left by the length of `fp` |
| Numbers.ShiftedScales | app.py:146-147 | moving the point left by `n` places is division by 10^n |
| Numbers.DigitsValueConcat | app.py:146-147 | the digits of `a + b` are worth those of `a` times 10^len(b), plus those of `b` |
| Numbers.DecimalStringRoundTrip | app.py:160 | the decimal text of a whole number parses back to that number |
| Numbers.UnitSuffixRejected | app.py:146-147 | `float("442px")` fails, so a coordinate with a unit aborts the certificate |
| Numbers.LetterEndRejected | app.py:146-147 | a value that ends in `x` and does not start with whitespace is not a number, so a leftover unit fails |
| Fonts.MappingTargetsKnown | app.py:73-83 | every value of `FONT_MAPPING` is a standard or registered font |
| Fonts.RegisteredMapToSelf | app.py:76-82 | each Cooper font maps to itself |
| Fonts.ResolveFont | app.py:159 | lookup never fails: an unmapped name gives `Helvetica`, a registered name gives itself |
| Fonts.ResolveUnquoted | app.py:159 | for a name without quote characters at its ends, the lookup is `FONT_MAPPING.get(name, 'Helvetica')` |
| Fonts.ResolveArial | app.py:74 | `Arial` resolves to `Helvetica` |
| Fonts.ResolveTimesNewRoman | app.py:75 | `Times New Roman` resolves to `Times-Roman` |
| Fonts.ResolveUnknownName | app.py:159 | `Comic Sans MS`, which is not in the mapping, resolves to `Helvetica` |
| Fonts.ResolveRegistered | app.py:76-82 | each Cooper name resolves to itself |
| Fonts.ResolveFontIgnoresQuotes | app.py:159 | surrounding `'` characters do not change the resolved font |
| Coordinates.ConvertCoordinates | app.py:145-148 | a point on the 1084×799 canvas lands on the 792×612 page |
| Coordinates.CanvasPosition | app.py:145-148 | the inverse map: converting its result gives back the page point |
| Coordinates.Corners | app.py:141-148 | (0,0)↦(0,612), (1084,799)↦(792,0), and likewise for the other two corners |
| Coordinates.StrictlyMonotone | app.py:145-148 | x grows strictly with `left`; y falls strictly as `top` grows |
| Coordinates.RoundTrip | app.py:145-148 | the conversion is invertible: canvas → page → canvas is the identity |
| Uploads.LastDot | app.py:26 | finds the last `.`, the split point of `rsplit('.', 1)`, or reports that there is none |
| Uploads.AllowedFile | app.py:25-26 | true iff the name has a `.` and the lower-cased text after the last one is `jpg` or `pdf` |
| Uploads.ExtensionDecides | app.py:25-26 | for `stem.ext` with a dot-free `ext`, only `ext` lower-cased decides |
| Uploads.PdfTemplateAllowed | app.py:20-26 | `certificate-template.pdf` is accepted |
| Uploads.JpgTemplateAllowed | app.py:20-26 | `certificate-template.jpg` is accepted |
| Uploads.UpperCaseExtensionAllowed | app.py:26 | `scan.PDF` is accepted, since the extension is lower-cased |
| Uploads.NoDotRejected | app.py:26 | a name without `.` is rejected |
| Uploads.InnerExtensionIgnored | app.py:26 | `notes.pdf.txt` is rejected: only the last extension counts |
| Positions.CleanDescriptor | app.py:130-135 | exactly the four keys, `px` removed from `top`/`left`/`fontSize`, defaults `'0'`,`'0'`,`'16'`,`'CooperBlkBT-Italic'`, `fontStyle` passed through |
| Positions.CleanKeepsPxFreeValues | app.py:131-133 | a numeric value is kept verbatim iff it contains no `"px"` |
| Positions.Cleaned | app.py:128-135 | the saved table has exactly the input's fields, each descriptor cleaned |
| Positions.SavePositions | app.py:127-138 | the loop builds a table with the input's key set and each entry cleaned |
| Positions.CleanedByEntries | app.py:128-135 | a table agreeing entrywise with the cleaning is the saved table |
| Positions.ReloadDescriptor | app.py:100-101 | only `fontSize` is rewritten, with `px` removed and default `'16'`; the other keys are untouched |
| Positions.Load | app.py:95-125 | a missing or undecodable file yields the default table and persists its cleaned form; a decoded table is returned with only `fontSize` rewritten and the file untouched |
| Positions.ReloadSizes | app.py:100-102 | the in-place loop rewrites each entry's `fontSize` and keeps the key set |
| Positions.ReloadedByEntries | app.py:100-102 | the loop's result is the table `load_positions` returns |
| Positions.LoadPositions | app.py:95-125 | returns exactly `Load`'s table and the file contents afterwards |
| Positions.CleanDescriptorFixesClean | app.py:130-135 | cleaning a descriptor that is already clean changes nothing |
| Positions.NameDefaultClean | app.py:105-110 | the default `name` entry is already clean |
| Positions.IdDefaultClean | app.py:111-116 | the default `certificate_id` entry is already clean |
| Positions.DurationDefaultClean | app.py:117-122 | the default `course_duration` entry is already clean |
| Positions.CleanedFixesCleanEntries | app.py:128-135 | saving a table of clean entries stores it unchanged |
| Positions.DefaultIsClean | app.py:104-124 | the persisted default table equals the returned one |
| Positions.LoadMissingPersistsDefault | app.py:103-125 | after a missing file, the next load returns the same default table |
| Positions.LoadFixesPxFreeSizes | app.py:100-102 | a stored table whose font sizes have no `px` is returned unchanged |
| Positions.DefaultSizesPxFree | app.py:104-123 | the default font sizes contain no `px` |
| Positions.SaveLoadRoundTrip | app.py:95-135 | save then load keeps keys, `top`, `left` and `fontStyle`, and gives back the saved table iff no saved size still contains `px` |
| Positions.SaveLoadLosesDoubledUnit | app.py:101 | a size `"ppxx"` is saved as `"px"` and reloaded as `""`, and saving twice differs from saving once |
| Positions.DefaultTablesDiffer | app.py:338-343 | the start-up table differs from the `load_positions` default only in the `course_duration` font |
| Compositor.Place | app.py:155-160 | placement succeeds iff all four keys are present and the numbers parse; the point is the converted `left`/`top`, the font is the resolved style, the size is `float(fontSize)` with `px` removed; a failure names the field and a key that is missing or does not parse |
| Compositor.PlaceErrorOrder | app.py:155-160 | the error reported is the first lookup that raises, in Python's evaluation order: `left`, `top`, `float(left)`, `float(top)`, `fontStyle`, `fontSize`, `float(fontSize)` |
| Compositor.FieldDraws | app.py:162-179 | one text with the field's content at the mapped y and the field's size, plus a line exactly when the field is `name` and the font step does not raise |
| Compositor.FieldDrawsCentred | app.py:162-174 | normal path: the text is in the resolved font at x − w/2; the `name` underline runs from x − w/2 to x + w/2 at y − 2, with length w and midpoint x |
| Compositor.FieldDrawsFallback | app.py:176-179 | fallback: a single Helvetica text at the uncentred (x, y) |
| Compositor.FieldDrawsCounts | app.py:169-179 | each present field draws its content exactly once, and an underline only for `name` on the normal path |
| Compositor.DrawOverlay | app.py:150-179 | the canvas loop produces exactly the overlay `Plan` describes, or its error |
| Compositor.ChainSucceedsIff | app.py:150-179 | the loop succeeds iff every iteration does |
| Compositor.ChainFirstError | app.py:150-179 | a failing loop reports the error of its first failing iteration, and all earlier ones succeeded |
| Compositor.StepOutcome | app.py:155-160 | a field's iteration fails iff the field is present with a descriptor that is not well formed, and then with `Place`'s error |
| Compositor.PlanSucceedsIff | app.py:150-160 | the certificate's overlay can be drawn iff every present field's descriptor is well formed |
| Compositor.PlanFirstError | app.py:150-160 | a failure reports the placement error of the first present field that is not well formed, and aborts the certificate |
| Compositor.PlanErrorKinds | app.py:155-160 | the overlay fails only with a missing key or a non-number |
| Compositor.PlanIgnoresOtherKeys | app.py:150-157 | keys of the table other than the three fields do not affect the overlay |
| Compositor.PlanDrawsPresentContents | app.py:150-179 | the texts drawn are the contents of the present fields, in the order `name`, `certificate_id`, `course_duration` |
| Compositor.OverlayLayout | app.py:150-154 | the overlay is the `name` commands, then the `certificate_id` ones, then the `course_duration` ones |
| Compositor.StepUnderlines | app.py:171-174 | a field's iteration draws one line iff it is `name` on the normal path |
| Compositor.UnderlineOnlyForName | app.py:171-174 | the whole overlay holds one underline when `name` is present and its font step does not raise, otherwise none |
| Compositor.Compose | app.py:181-194 | success iff the overlay is drawn and the template has a page 0; the result is exactly one page, template page 0 with the overlay stamped on top; placement errors win over template errors; a missing template gives `AssetNotFound` and a template without pages gives `EmptyTemplate`, each exactly when the overlay was drawn |
| Compositor.GenerateCertificate | app.py:140-194 | the method returns exactly `Compose`'s document or error |
| Batch.RequestOf | app.py:296-302 | each of the three columns is taken from the row, or `''` when the row lacks it |
| Batch.EntryNameShape | app.py:304 | the member name is `certificate_`, the id, then `.pdf` |
| Batch.EntryNameInjective | app.py:304 | distinct ids give distinct member names |
| Batch.CertifyRow | app.py:296-302 | one row's certificate is `generate_certificate` on that row's columns |
| Batch.CollectStep | app.py:294-304 | a row either adds exactly its entry or ends the batch with its error |
| Batch.GenerateArchive | app.py:293-309 | the loop produces exactly the archive `Archive` describes, or its error |
| Batch.CollectEntries | app.py:293-304 | a successful loop has one entry per row, in row order, holding that row's body result |
| Batch.CollectSucceedsIff | app.py:293-309 | the row loop succeeds iff every row does |
| Batch.CollectFirstError | app.py:293-309 | a failing row loop reports its first failing row's error |
| Batch.ArchiveEntries | app.py:293-304 | a successful archive has exactly one entry per row, named `certificate_<id>.pdf` and holding that row's certificate |
| Batch.ArchiveSucceedsIff | app.py:293-309 | the archive is produced iff every row's certificate can be composed |
| Batch.ArchiveNamesDistinct | app.py:304 | member names are distinct whenever the ids are |
| Batch.PlanOutcomeIgnoresContent | app.py:150-160 | whether the overlay fails, and with which error, does not depend on the texts |
| Batch.ComposeOutcomeIgnoresRequest | app.py:140-194 | all rows of one upload share table and template, so their certificates succeed or fail alike |
| Batch.ArchiveAllOrNothing | app.py:293-309 | the archive holds every row's certificate, or the upload fails with the first row's error and yields no archive |
| Batch.ArchiveFirstError | app.py:308-309 | a failed upload reports the error of row 0, whose certificate fails with it |

## Left out

- Flask routes and HTTP handling are not modelled: `upload_templates`,
  `delete_templates`, `check_templates`, `download_pdf`, `save_positions_route`,
  `get_positions`, `course_page`, `certificate_preview` and `index`. This
  includes the request side of `upload_csv`, such as its `.csv` file-name
  check. They are request/response glue around the modelled functions.
- File and JSON I/O are not modelled: `open`, `json.load`, `json.dump`,
  `os.makedirs`, `os.remove`, and `load_courses`/`save_courses`. The
  positions file is the `Store` value (absent, undecodable, or a decoded
  table). `save_positions` returns the table it would write.
- Descriptor values are strings. A JSON number or other non-string value, and
  Python's `str()` of such a value, are not modelled.
- `register_fonts` and TTF loading are left out. The registered fonts are
  taken to be the seven Cooper names.
- ReportLab (canvas, `setFont`, `stringWidth`, serialisation) and PyPDF2
  (`PdfReader`, `merge_page`, `PdfWriter`) are library code. They appear
  only as the `Renderer` input and the page values.
- Failure of the fallback `drawString` in the `except` branch is not
  modelled; the fallback is assumed to succeed.
- In the partial-draw case, `c.line` raises after `drawString` has already
  drawn the name, which would draw it twice. This is not modelled: a
  raising font step is taken to fail before anything is drawn.
- Floating point is not modelled. Coordinates and sizes are exact reals, so
  no claim is made about IEEE rounding.
- Numbers.ParseFloat: accepts only the decimal subset of Python `float()`:
  optional sign, ASCII digits, optional fraction, surrounded by the six
  whitespace characters space, `\t`, `\n`, `\r`, `\v` and `\f`. Python
  also accepts the following, and the model rejects them:
  - exponents;
  - `inf` and `nan`;
  - digit-group underscores;
  - the ASCII separators `\x1c`–`\x1f` and other Unicode whitespace around
    the number;
  - non-ASCII decimal digits such as `'٤'`.
- Text.Lower: ASCII only, where Python lower-cases all of Unicode.
- Text.Replace: requires a non-empty pattern. The only pattern used is
  `"px"`.
- CSV parsing by pandas is not modelled. A row is a map from column to text,
  and an empty cell becoming `"nan"` is not represented.
- The `uuid.uuid4()` member ids are an input sequence with one id per row.
  Their uniqueness cannot be derived, so `Batch.ArchiveNamesDistinct` assumes
  it.
- Zip/DEFLATE encoding and the archive's byte layout are not modelled. The
  archive is the list of (name, document) entries.
