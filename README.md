# Markdown-to-PDF converter: validation, file naming, archive intake and health arithmetic

This project models the deterministic rules of a web service that turns a
ZIP archive of markdown and images into a PDF, and proves properties of them
in Dafny:

- **Request validation** (`Validators`, app/utils/validators.py):
  - document titles are cleaned and limited;
  - the page format has a whitelist;
  - boolean query parameters are parsed;
  - markdown content has emptiness and size limits;
  - missing image references are found;
  - error responses are built;
  - download file names are sanitised.
- **File helpers** (`FileHelpers`, app/utils/file_helpers.py): the upload size limit, `safe_filename` and `get_file_extension`.
- **Archive intake** (`ZipProcessing`, app/services/zip_processor.py): the `ZipProcessor` object and its four fields, modelled as a Dafny class whose methods update them in place. It covers:
  - the extracted-size limit of `_extract_zip`;
  - the walk of `_find_files`, which sorts files into markdown files and images and picks the main markdown file;
  - `_read_main_markdown`;
  - the MIME filter of `_create_image_mapping`;
  - the reset in `cleanup`.
- **Health routes** (`Health`, app/routes/health.py): the uptime split into hours, minutes and seconds and its `"{h}h {m}m {s}s"` text, and the maximum upload size in whole mebibytes.

Four support modules give the Python behaviour these rules rely on:

- `Outcomes`: Option, Result, and Outcome (returns nothing or raises).
- `Text`: ASCII `strip`, `lower`, `startswith`, `endswith`, `str(int)` and its inverse, and slicing with a negative end.
- `Paths`: `rfind`, `split`, `PurePosixPath.name`/`.suffix`, `os.path.splitext` and `rsplit('.', 1)`.
- `Config`: the size settings and their defaults.

Things outside the program are inputs:

- The directory walk is a sequence of discovered entries (relative path, is-a-file).
- The MIME sniffer and the file reads are functions passed by the caller.
- The archive is the list of declared entry sizes, plus the error `extractall` raised, if any: a `BadZipFile` about one member, or any other exception by its text.
- The uptime is a natural number of seconds.
- The matches of the `<img src=...>` regular expression are an input sequence.
- The `![alt](path)` pattern is scanned by a hand-written matcher.

Three points of the code's behaviour are modelled as it is written:

- The page formats A4, Letter, Legal, A3 and A5 are accepted.
- Extraction makes no path-traversal check.
- Several markdown files in one archive are not an error.

A raised `ValueError` or `ValidationError` becomes the `Err`/`Fail` case of a
result value that carries the message or the error object.

## Model

| member | source | states |
|---|---|---|
| Validators.NewValidationError | app/utils/validators.py:10-16 | The error keeps the message and code; the code defaults to VALIDATION_ERROR; absent details become an empty dictionary |
| Validators.RemoveForbidden | app/utils/validators.py:97 | What is left has none of the nine characters `<` `>` `:` `"` `/` `\` `?` `*` and the vertical bar; a character is kept exactly when it was in the text and is not forbidden |
| Validators.RemoveForbiddenAppend | app/utils/validators.py:97 | Removing from a concatenation is removing from each part and concatenating, so kept characters keep their order and number |
| Validators.RemoveForbiddenOne | app/utils/validators.py:97 | A single character is dropped exactly when it is one of the nine, and is otherwise kept |
| Validators.CleanTitle | app/utils/validators.py:97 | The cleaned title is no longer than the title; every character it has comes from the title and is not forbidden; every non-whitespace, non-forbidden character of the title is still in it |
| Validators.RemoveForbiddenOfClean | app/utils/validators.py:97 | A text with no forbidden character passes through unchanged |
| Validators.ValidateTitle | app/utils/validators.py:93-106 | Fails with EMPTY_TITLE exactly when the title is empty or all whitespace. Fails with INVALID_TITLE exactly when cleaning (or cutting to 200 and stripping again) leaves nothing. The only errors are those two. A success is 1..200 characters long, has no forbidden character, and uses only characters of the title. Its value is the cleaned title when that is at most 200 characters long, and otherwise the cleaned title's first 200 characters, stripped again |
| Validators.ValidateTitleOfCleanTitle | app/utils/validators.py:93-106 | A stripped title of 1..200 characters with no forbidden character is returned as it is |
| Validators.ValidatePageFormat | app/utils/validators.py:122-134 | Returns its input unchanged exactly when it is A4, Letter, Legal, A3 or A5; otherwise fails with INVALID_PAGE_FORMAT, with the message `Unsupported page format: ` followed by the input, and with the provided and supported formats as details |
| Validators.PageFormatIsCaseSensitive | app/utils/validators.py:122-124 | "A4" is accepted and "a4" is rejected |
| Validators.ValidateBooleanParameter | app/utils/validators.py:151-165 | A bool is returned as it is. True comes exactly from `True` or a string whose lower case is true/1/yes/on, and False exactly from `False` or false/0/no/off. Everything else fails with INVALID_BOOLEAN and the parameter name and value as details |
| Validators.BooleanTextRoundTrip | app/utils/validators.py:154-159 | Python's spelling of a bool, `True`/`False`, parses back to that bool |
| Validators.BooleanIgnoresCase | app/utils/validators.py:155 | A string and its lower-case form are accepted alike and give the same bool |
| Validators.ValidateMarkdownContent | app/utils/validators.py:178-187 | EMPTY_CONTENT exactly for empty or all-whitespace text. CONTENT_TOO_LARGE exactly for other text longer than 10·1024·1024 characters, with the size as detail. Passes exactly otherwise |
| Validators.ImageLinkAt | app/utils/validators.py:210 | A match at a position spans a text `![alt](path)` with no `]` in alt and a non-empty path without `)` |
| Validators.ImageLinkAtFinds | app/utils/validators.py:210 | Wherever such a text begins, the matcher finds exactly it and its path |
| Validators.ImageLinkPaths | app/utils/validators.py:210-216 | Every path found is non-empty and holds no `)` |
| Validators.ImageLinkPathsFromText | app/utils/validators.py:210-216 | Every path found is the path of an `![alt](path)` text (no `]` in alt, no `)` in path) at or after the scan's start |
| Validators.ImageLinkPathsOfLink | app/utils/validators.py:210-222 | A text that is one image link yields exactly that link's path |
| Validators.ImageLinkPathsSkip | app/utils/validators.py:210-216 | A stretch of the text where no image link begins adds no path to the scan |
| Validators.ImageLinkPathsSkipPlain | app/utils/validators.py:210-216 | A stretch of the text without `!` adds no path to the scan |
| Validators.ImageLinkPathsFinds | app/utils/validators.py:210-216 | When the first image link after the scan's start is `![alt](path)`, the scan yields `path` first and then continues right after that link |
| Validators.ImageLinkPathsLinkAt | app/utils/validators.py:210-216 | A scan starting at an image link `![alt](path)` yields `path` first and then continues right after the link |
| Validators.ImageLinkPathsLinksAround | app/utils/validators.py:210-222 | A text made of an image link, a stretch without `!` and another image link yields exactly the two paths, in order |
| Validators.ImageLinkPathsTwo | app/utils/validators.py:210-222 | `![alt1](path1)`, any text without `!`, then `![alt2](path2)` yields exactly `[path1, path2]` |
| Validators.ImageLinkPathsTwoLinks | app/utils/validators.py:210-222 | `![a](x.png) ![b](y.png)` yields exactly `x.png` and then `y.png` |
| Validators.StripDotSlash | app/utils/validators.py:225 | `lstrip('./')`: the normal form is empty or starts with neither `.` nor `/` |
| Validators.StripDotSlashShape | app/utils/validators.py:225 | The normalised path is a suffix of the raw one that starts with neither `.` nor `/`, and only `.` and `/` were dropped |
| Validators.NormalisedPaths | app/utils/validators.py:214-226 | The normal form of every raw reference is in the set |
| Validators.AddNormalised | app/utils/validators.py:216-226 | Adding the matches of one pattern adds exactly their normal forms to the set |
| Validators.NormalisedPathsMembership | app/utils/validators.py:214-226 | A path is in the referenced set exactly when some raw reference normalises to it |
| Validators.NormalisedPathsAppend | app/utils/validators.py:215-217 | The set built from two groups of matches is the union of the sets built from each group |
| Validators.ValidateImageReferences | app/utils/validators.py:209-241 | The result has no repeated path. Its elements are exactly the normalised references, from both patterns, that are not among the available images |
| Validators.ListOfSet | app/utils/validators.py:241 | `list(set)`: each element of the set is listed once, with nothing else |
| Validators.MissingImageMembership | app/utils/validators.py:225-230 | A path is missing exactly when it is not available and some reference normalises to it |
| Validators.ReferencedImagesNormal | app/utils/validators.py:225-230 | No referenced (so no missing) path starts with `.` or `/` |
| Validators.CreateErrorResponse | app/utils/validators.py:244-266 | The response carries the error's code, message and details unchanged (the error can be read back from it), the given request id, and no timestamp |
| Validators.SanitizedName | app/utils/validators.py:280-289 | Before the length limit the name is non-empty, is all `[A-Za-z0-9-_.]`, and does not start with `.` or `-`. The empty name becomes `document.pdf`. Any other name is its safe replacement, with `file_` in front exactly when the name starts with `.` or `-` |
| Validators.WithFilePrefix | app/utils/validators.py:284-285 | A name starting with `.` or `-` gets `file_` in front and any other name is left as it is; the result is empty only for the empty name and otherwise starts with neither `.` nor `-` |
| Validators.WithFilePrefixDots | app/utils/validators.py:284-285 | The prefix keeps whether the name has a dot, and keeps the text after its last dot |
| Validators.SanitizeFilename | app/utils/validators.py:280-296 | The result is non-empty and all safe characters; with no truncation it is the prefixed name and starts with neither `.` nor `-` |
| Validators.LimitDownloadName | app/utils/validators.py:292-294 | The cut never lengthens the name and leaves a name of at most 100 characters as it is; a longer name not starting with `.` always gets shorter |
| Validators.LimitKeepsSafe | app/utils/validators.py:292-294 | Cutting keeps a long safe name safe and non-empty |
| Validators.LimitDownloadNameShape | app/utils/validators.py:292-294 | With at most 98 characters after the last dot, the cut name is at most 100 characters long and keeps the first character. It keeps `.` plus the extension at its end and cuts only the stem. A name with no dot, or ending in a dot, is cut to a prefix |
| Validators.LimitDownloadNameNoDot | app/utils/validators.py:293-294 | A long name without a dot is cut to its first 99 characters |
| Validators.LimitDownloadNameBounds | app/utils/validators.py:292-294 | For a name starting with neither `.` nor `-` and with at most 98 characters after the last dot, the cut name is at most 100 characters long, still starts with neither, and ends with `.` plus that extension when it is non-empty |
| Validators.AfterLastDotFilePrefix | app/utils/validators.py:284-293 | Putting `file_` in front does not change the text after the last dot |
| Validators.SanitizedNameExtension | app/utils/validators.py:280-293 | For a non-empty name, the first steps keep whether there is a dot, and turn the text after the last dot into its safe replacement |
| Validators.SanitizeFilenameBounds | app/utils/validators.py:280-294 | With at most 98 characters after the last dot, the result is at most 100 characters long, starts with neither `.` nor `-`, and, when the made-safe extension is non-empty, ends with `.` plus it |
| Validators.SanitizeFilenameFixedPoint | app/utils/validators.py:280-296 | A safe name of at most 100 characters that starts with neither `.` nor `-` is returned as it is |
| Validators.SanitizeFilenameIdempotent | app/utils/validators.py:280-296 | With at most 98 characters after the last dot, sanitising the result again changes nothing |
| Validators.SanitizeFilenameLongExtension | app/utils/validators.py:292-294 | With an extension of exactly 99 characters the stem is cut to nothing, and the result is `.` plus the extension |
| FileHelpers.ReplaceUnsafe | app/utils/file_helpers.py:82-83 | Each character outside `[A-Za-z0-9-_.]` becomes `_`, one for one; the length stays the same |
| FileHelpers.ReplaceUnsafeSafe | app/utils/file_helpers.py:82-83 | The mapped text is all safe, and a character is kept exactly when it was safe |
| FileHelpers.ReplaceUnsafeKeepsDots | app/utils/file_helpers.py:82-91 | The last dot stays at the same index, and the text from it (or after it) is the mapped text from it |
| FileHelpers.ReplaceUnsafeOfSafe | app/utils/file_helpers.py:82-83 | A text of safe characters is left as it is |
| FileHelpers.ValidateFileSize | app/utils/file_helpers.py:22 | True exactly when the size does not exceed `max_file_size` |
| FileHelpers.DefaultFileSizeLimit | app/utils/file_helpers.py:22 | With the defaults the inclusive limit is 52428800 bytes; any smaller size is accepted too |
| FileHelpers.WithDocumentPrefix | app/utils/file_helpers.py:86-87 | An empty name or one starting with `.` gets `document` in front; any other name is left unchanged; the result never starts with `.` |
| FileHelpers.SafeFilename | app/utils/file_helpers.py:82-94 | The result is non-empty and all safe characters. When the mapped name, with `document` put in front of an empty or dot-leading one, is at most 255 characters long, the result is exactly that name |
| FileHelpers.CutToLimit | app/utils/file_helpers.py:90-92 | Cutting a safe name longer than 255 characters leaves a non-empty, safe name |
| FileHelpers.CutToLimitShape | app/utils/file_helpers.py:90-92 | For such a name not starting with `.` whose text from the last dot is shorter than 255 characters, the cut is exactly 255 characters long, keeps the first character and ends with that text; it is exactly the name's first characters, as many as 255 minus the extension's length, followed by the extension |
| FileHelpers.SafeFilenameFixedPoint | app/utils/file_helpers.py:82-94 | A safe name of at most 255 characters that does not start with `.` is returned as it is |
| FileHelpers.PrefixedName | app/utils/file_helpers.py:82-87 | The prefixed name is safe, and its text from the last dot is the mapped text from the input's last dot |
| FileHelpers.DocumentPrefixed | app/utils/file_helpers.py:86-87 | `document` in front keeps a name safe and keeps its text from the last dot |
| FileHelpers.SplitExtOfSafeName | app/utils/file_helpers.py:91 | On a safe name not starting with `.`, `splitext` splits exactly at the last dot |
| FileHelpers.SafeFilenameLimit | app/utils/file_helpers.py:82-94 | When the text from the last dot is shorter than 255 characters, the result is at most 255 characters, ends with that (made-safe) text and does not start with `.`. When the prefixed name is longer than 255 characters, the result is exactly its first characters, as many as 255 minus the extension's length, followed by the extension |
| FileHelpers.SafeFilenameIdempotent | app/utils/file_helpers.py:82-94 | Under the same condition, applying `safe_filename` to its result changes nothing |
| FileHelpers.SafeFilenameIdempotentShort | app/utils/file_helpers.py:82-94 | `safe_filename` is idempotent on every name of at most 247 characters |
| FileHelpers.GetFileExtension | app/utils/file_helpers.py:107 | The result is empty or a `.` followed by at least one character and no other dot, with no upper-case letter. It is non-empty exactly when the last dot of the final component is neither its first nor its last character, and it is then that component from the dot on, lower-cased |
| FileHelpers.GetFileExtensionOfName | app/utils/file_helpers.py:107 | For a component `stem.x` with a non-empty stem and a dot-free `x`, the extension is `.x` lower-cased |
| Paths.Name | app/services/zip_processor.py:117 | A path's name holds no `/` and is not `.` |
| Paths.NameAfterSlash | app/services/zip_processor.py:117 | The name of `dir/n`, for a proper component `n`, is `n` whatever the directory |
| Text.StripEmptyIff | app/utils/validators.py:93 | `s.strip()` is empty exactly when `s` is all whitespace |
| Text.StripBounds | app/utils/validators.py:97-101 | What `strip()` keeps is a contiguous piece of the text with only whitespace around it, and it neither starts nor ends with whitespace |
| Text.StripKeepsInner | app/utils/validators.py:97 | Every non-whitespace character of a text survives `strip()` |
| Text.IntToStringRoundTrip | app/routes/health.py:31 | `str(i)` reads back as `i` for every integer |
| Text.NatToStringOfDigits | app/routes/health.py:31 | A digit run with no leading zero (other than "0" itself) is exactly what `str` writes for the number it denotes |
| Text.ParseIntOnlyOf | app/routes/health.py:31 | The only text that reads back as `i` is `str(i)`, so leading zeros and `-0` are not read |
| ZipProcessing.ExtractZip | app/services/zip_processor.py:84-100 | Passes exactly for a readable archive whose declared sizes sum to at most `max_extracted_size` and whose extraction does not raise. A corrupt archive fails with "Invalid ZIP file format". An oversized one fails with the size message wrapped in "Failed to extract ZIP file: ". A `BadZipFile` raised by `extractall` also gives "Invalid ZIP file format"; any other error it raises is wrapped in "Failed to extract ZIP file: " |
| ZipProcessing.TotalSize | app/services/zip_processor.py:89 | No single entry is larger than the total |
| ZipProcessing.TotalSizeAppend | app/services/zip_processor.py:89 | The total of two groups of entries is the sum of their totals |
| ZipProcessing.ExtractLimitInclusive | app/services/zip_processor.py:89-91 | A total equal to the limit is accepted; removing entries keeps an archive accepted; the default limit is 209715200 bytes |
| ZipProcessing.Classify | app/services/zip_processor.py:112-119 | Only a name whose last dot is neither its first nor its last character is classified; a markdown file's name has `.md` or `.markdown` from its last dot on, and an image's `.png`, `.jpg` or `.jpeg`, ignoring case |
| ZipProcessing.IsMainName | app/services/zip_processor.py:117 | A file named `main.md` or `readme.md`, in any case, is a markdown file |
| ZipProcessing.MainNameSuffix | app/services/zip_processor.py:112-117 | `main.md` and `readme.md`, in any case, have a proper last dot with `.md` after it |
| ZipProcessing.ClassifyOfName | app/services/zip_processor.py:112-122 | A file whose last component is `stem.x` is a markdown file for `.md`/`.markdown`, an image for `.png`/`.jpg`/`.jpeg` (case-insensitively), and ignored otherwise, in any directory |
| ZipProcessing.MarkdownFoundMembership | app/services/zip_processor.py:110-115 | A path is a recorded markdown file exactly when the walk found a regular file with a markdown suffix at that path |
| ZipProcessing.ImagesFoundKeys | app/services/zip_processor.py:119-122 | Starting from no images, the keys are exactly the relative paths of the regular files with an image suffix, each mapped to its full path |
| ZipProcessing.FoundDisjoint | app/services/zip_processor.py:114-122 | No recorded image is also a recorded markdown file |
| ZipProcessing.LastMainChoice | app/services/zip_processor.py:117-118 | The main-named pick is main-named, is one of the markdown files and is followed by no other main-named one. There is none exactly when no markdown file is named main.md or readme.md |
| ZipProcessing.FilesWhereAppend | app/services/zip_processor.py:110-115 | Recording two stretches of the walk records the first, then the second |
| ZipProcessing.FilesByRelPathAppend | app/services/zip_processor.py:119-122 | Inserting the images of two stretches of the walk inserts the first, then the second |
| ZipProcessing.LastWhereAppend | app/services/zip_processor.py:117-118 | The last pick over two stretches is the second stretch's pick if it has one, else the first's |
| ZipProcessing.ZipProcessor.constructor | app/services/zip_processor.py:19-23 | A new processor has no directory, no files and no main file |
| ZipProcessing.ZipProcessor.UseTempDir | app/services/zip_processor.py:42 | Sets the temporary directory and changes nothing else |
| ZipProcessing.ZipProcessor.FindFiles | app/services/zip_processor.py:102-130 | With no directory (None or "") it fails with "No temporary directory available" and changes nothing. Otherwise it appends the markdown files in walk order, inserts the images under their relative paths, and takes the last main-named markdown file as main. With no markdown files it fails with "No markdown files found in ZIP archive". Otherwise it passes, with the first markdown file as the fallback main file. A chosen main file is always one of the markdown files |
| ZipProcessing.ZipProcessor.RecordAll | app/services/zip_processor.py:110-122 | After the walk, the fields equal the specification functions applied to every discovered entry |
| ZipProcessing.ZipProcessor.RecordFound | app/services/zip_processor.py:111-122 | One entry: a markdown file is appended (and becomes main if main-named); an image is inserted under its relative path; anything else changes nothing |
| ZipProcessing.ZipProcessor.ReadMainMarkdown | app/services/zip_processor.py:141-163 | Fails with "No main markdown file identified" when there is no main file. Otherwise returns the UTF-8 text, or, after a decode error, the Latin-1 text. Any other read failure becomes "Failed to read markdown file: " plus the reason |
| ZipProcessing.ZipProcessor.CreateImageMapping | app/services/zip_processor.py:165-203 | The keys are exactly the image keys whose file the sniffer calls `image/...` and that can be read; each value is that file's recorded path |
| ZipProcessing.ZipProcessor.Cleanup | app/services/zip_processor.py:205-221 | Directory and main file become None and both collections become empty |
| ZipProcessing.CleanupTwice | app/services/zip_processor.py:205-221 | Cleaning up twice leaves the same state as cleaning up once |
| ZipProcessing.FindFilesFresh | app/services/zip_processor.py:102-130 | A fresh processor with a directory set passes exactly when a markdown file was found, and otherwise fails with "No markdown files found in ZIP archive". Its collections are exactly the found files. Its main file is the one the main-file rule picks |
| ZipProcessing.ChooseMain | app/services/zip_processor.py:117-130 | The main file is one of the markdown files. When any is named main.md/readme.md, the choice is the last such one; otherwise it is the first file |
| Health.SplitUptime | app/routes/health.py:42-45 | hours·3600 + minutes·60 + seconds equals the uptime, with minutes and seconds below 60 |
| Health.SplitUptimeUnique | app/routes/health.py:42-45 | Any split with minutes and seconds below 60 is the one computed |
| Health.FormatUptime | app/routes/health.py:47 | The uptime text reads back as exactly the three computed numbers |
| Health.ParseUptimeFields | app/routes/health.py:47 | A text that reads back as an uptime is three digit runs without leading zeros in the `{h}h {m}m {s}s` shape |
| Health.ParseUptimeOnlyOf | app/routes/health.py:47 | The only text that reads back as an uptime is its three numbers written by `str` in the `{h}h {m}m {s}s` shape |
| Health.FormatUptimeUnique | app/routes/health.py:42-47 | Any text that reads back as the split of the uptime is the uptime text itself, so zero-padded forms are excluded |
| Health.ParseUptimeOf | app/routes/health.py:47 | Three digit runs without leading zeros in the `{h}h {m}m {s}s` shape read back as their numbers |
| Health.ReadFieldOf | app/routes/health.py:47 | A non-empty digit run without leading zeros followed by a unit that does not start with a digit reads back as that run and the text after the unit |
| Health.Floor | app/routes/health.py:31 | Python's `//`: q·d ≤ a < (q+1)·d, also for a negative size |
| Health.MaxFileSizeLabel | app/routes/health.py:31 | The size text is a number followed by `MB`, and that number is `max_file_size` in MiB rounded down |
| Health.ReadFieldOnlyOf | app/routes/health.py:47 | A field that is read is a digit run without leading zeros, the unit and the rest, in that order |
| Health.ParseSizeLabelOnlyOf | app/routes/health.py:31 | The only text that reads back as `q` mebibytes is `str(q)` followed by `MB` |
| Health.MaxFileSizeLabelUnique | app/routes/health.py:31 | Any text that reads back as `max_file_size` in MiB rounded down is the size text itself |
| Health.DefaultMaxFileSizeLabel | app/routes/health.py:31 | With the default settings the text is `50MB` |

## Left out

- app/services/pdf_generator.py is not part of this model. Markdown-to-HTML and the table of contents come from the `markdown` library, and rendering from WeasyPrint; there is no pagination logic in the repository to model.
- `process_zip` itself is not modelled. This covers the temporary-file write and unlink, `tempfile.mkdtemp` (the directory path is a parameter of `UseTempDir`), the order in which it calls the steps, and the context-manager methods. Each step is modelled on its own.
- Real extraction (`extractall`), the recursive walk (`rglob`), file reads and libmagic are inputs: an `Archive` value, a `Discovered` sequence, and functions passed to `ReadMainMarkdown` and `CreateImageMapping`. In `_find_files`, `str(relative_path)` is taken to be the relative path the walk reports; `pathlib`'s own normalisation of it is not modelled.
- `shutil.rmtree` in `cleanup` is a filesystem effect; only the reset of the four fields is modelled.
- Validators.ValidateImageReferences: the `<img[^>]+src=...>` regular expression is not reimplemented. Its matches are the `tagPaths` input, and only `![alt](path)` is scanned by the model.
- The order of `list(missing_images)` follows Python's set iteration, which the model does not fix; only the elements and the absence of repeats are stated.
- Logging is not modelled, including the warning for plain-text markdown in `validate_markdown_content`, which never changes the outcome.
- `validate_upload_file` and `validate_file_type` are not modelled: asynchronous upload reads and MIME sniffing of bytes.
- `get_file_size_human` is not modelled: floating-point division and `.1f` formatting.
- `create_temp_directory`, `cleanup_temp_directory`, `ensure_directory_exists`, `write_temp_file`, `read_file_safely` and `copy_file_safely` are not modelled: filesystem I/O.
- The routing, `health_check` and `root` constant responses, and the clock of app/routes/health.py are not modelled; the uptime is a natural number given in seconds.
- `strip()` and `lower()` cover ASCII only: Unicode whitespace and case mapping are not modelled.
- `get_file_extension` follows the `PurePath.suffix` rule where a name ending in a dot has no suffix, as Python up to 3.13 behaves.
- Validators.SanitizeFilenameBounds: stated only for names with at most 98 characters after the last dot. With 99, the stem is cut to nothing and the result starts with `.` (Validators.SanitizeFilenameLongExtension). With more, `name[:100-len(ext)-1]` takes a negative end and the result exceeds 100 characters. `SliceTo` models that negative slice exactly.
- Validators.SanitizeFilenameIdempotent: stated under the same 98-character condition.
- FileHelpers.SafeFilenameLimit: stated only when the text from the last dot is shorter than 255 characters; for longer extensions `name[:255-len(ext)]` also takes a negative end.
