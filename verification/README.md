# Image-dataset pipeline: downloader, URL selection and edit loop

A Dafny model of the parts of the vision-dataset pipeline that hold logic of
their own:

- **`src/downloader.py`**: the image downloader.
  - The target file name of a URL: the SHA-1 hex digest of the whole URL, a `.`, then the extension cut from the URL.
  - Response validation: the status must be 200 and the content type must start with `image/`.
  - The per-URL rule of `download_image`. An existing target is a success with no fetch; every error becomes `False`.
  - `download_images`: every URL is checked against the output directory as the run found it, then the results are reported as `sum(results)/len(tasks)`.
  - `read_input_urls`: the header row is skipped, then the first field of every row is read.
- **`src/generate_input.py`**:
  - `is_valid_url`: the lower-cased URL must end with `.jpg`, `.jpeg` or `.png`.
  - The `filter(is_valid_url).take(n)` selection.
- **`src/edit_images.py`**:
  - The output name `<stem>_edited<ext>` in the output directory.
  - The integer guard of `resize_image`.
  - The exception-to-`False` contract of `edit_image`.
  - The loop that counts successes.

Files and modules:

| file | module | content |
|---|---|---|
| `wrappers.dfy` | `Wrappers` | `Option` and `Result` |
| `seqs.dfy` | `Seqs` | `Count`, `Filter`, `Take`, `IsSubseq` |
| `text.dfy` | `Text` | Python `str` operations: `find`, `rfind`, `split`, `startswith`, `endswith`, ASCII `lower` |
| `paths.dfy` | `Paths` | `posixpath.basename`, `join` and `splitext` |
| `downloader.dfy` | `Downloader` | the downloader |
| `generate_input.dfy` | `GenerateInput` | URL selection |
| `edit_images.dfy` | `EditImages` | the edit script |

The outside world is passed in as parameters:

- **SHA-1** is a `Hasher`: any function from a URL to 40 lower-case hex digits.
- **The network and the disk** form an `Io` value:
  - `fetch` gives, per URL, a response (status, optional content type, body), a client error or a timeout.
  - `write` gives, per path, a complete write, an open that fails, or a write that fails after `n` bytes reached the file.
- **The output directory** is a `Store`, a map from path to contents.
- **PIL, the resize arithmetic, the diffusion pipeline and saving** form an `Editor` value. Each of its functions answers `None` or `false` where the library would raise.

How the fold is modelled:

- **Downloads** (`DownloadAll`):
  - `gather` starts every `download_image` call at once.
  - Each call makes its existence check (lines 57-58) before it first waits, on the semaphore or the network.
  - So every check sees the directory as the run found it. The check of `DownloadTo` takes that directory, and the write goes to the directory as it currently stands.
  - Two URLs with the same target that was absent are both fetched, and each is written when its response is accepted.
  - The writes land in input order. That is one of the orders the program allows, and the outcomes do not depend on it (`OutcomesAreIndependent`).
- **Naming parameter:**
  - The fold takes the naming function as a parameter.
  - `Targets(hash, dir)` is the downloader's own naming, `os.path.join(output_dir, calculate_file_name(url))`.
  - The re-run lemmas hold for any naming.
- **Edits:** the edit loop is modelled the same way, as `EditResults` and `EditLoop` with `Outputs(outputDir)`.

The model keeps these details of the code:

- **Extension case:** the extension keeps the case it has in the URL. It is not lower-cased.
- **Extension source:**
  - The extension is the text after the last '.' of the URL's part before the first '?'.
  - When that part has no '.', the extension is all of it, scheme and host included.
  - It is empty when the URL is empty or starts with '?', when it has a '.' right before its first '?', or when it has no '?' and ends with '.'.
- **Extension is not limited to the last path segment:**
  - The extension can hold '/'. For example, `http://a.com/img` gives `com/img`.
  - Such a name points into a subdirectory `<digest>.com` of the output directory, and nothing creates that subdirectory.
  - So `aiofiles.open` (line 68) raises and that URL always fails. The model leaves this to the `write` parameter (see "Left out").
- **Query strings:**
  - The digest covers the whole URL, query included.
  - URLs that differ only in their query get the same extension and different names, unless their digests collide (`QueryOnlyChangesDigest`).
  - The `Hasher` is arbitrary, so the model does not exclude such a collision.
- **Re-runs:**
  - A second run tries again the URLs that left no file.
  - If the first run fully succeeded, the second changes nothing (`RerunAfterFullSuccess`).
  - In general no file of the first run changes (`SecondRunKeepsFirst`).
- **Interrupted writes:**
  - A write that fails after opening the file leaves a truncated file behind.
  - That file is taken for a finished download by every later run (`InterruptedWriteIsNeverRepaired`).
- **Duplicate URLs in one run:**
  - Both copies are fetched.
  - When the write fails before any byte lands, the run reports 0 of 2 (`InterruptedDuplicateFailsTwice`).

## Model

| member | source | states |
|---|---|---|
| Downloader.BeforeQuery | src/downloader.py:82 | the part before the first '?' is a prefix of the URL, holds no '?', and is followed by '?' when it is shorter than the URL |
| Downloader.LastDotSuffix | src/downloader.py:82 | the last piece of `split(".")` holds no '.' and ends the text; it is the whole text when there is no '.', and otherwise it directly follows a '.' |
| Downloader.Extension | src/downloader.py:82 | the extension holds neither '?' nor '.' |
| Downloader.FileName | src/downloader.py:80-83 | the name is 41 characters longer than the extension, and it can be taken apart again: its first 40 characters are the digest, then a '.', then the extension |
| Downloader.FileNameInjective | src/downloader.py:80-83 | two URLs get the same file name exactly when their digests and their extensions are equal |
| Downloader.QueryOnlyChangesDigest | src/downloader.py:81-82 | URLs equal before the first '?' have the same extension; their names are equal exactly when their digests are |
| Downloader.FileNameIsRelative | src/downloader.py:83 | a file name never starts with '/', so joining never discards the output directory |
| Downloader.TargetPath | src/downloader.py:57 | the target starts with the output directory and ends with the file name, with a '/' between them when the directory is not empty and does not end in one; the length is exactly that |
| Downloader.TargetPathInjective | src/downloader.py:57 | in one output directory two URLs share a target exactly when they share a file name |
| Downloader.ValidateHttpStatus | src/downloader.py:91-93 | passes exactly when the status is 200, and otherwise rejects with that status |
| Downloader.ValidateContentType | src/downloader.py:96-99 | passes exactly when a content type is present and starts with `image/`; a missing header is rejected as `""` |
| Downloader.ValidateResponse | src/downloader.py:86-88 | passes exactly when both checks pass; a bad status is reported first |
| Downloader.DownloadTo | src/downloader.py:57-77 | reported present exactly when the existence check found the target, and then nothing is written; a success leaves the target in the directory; only the target may be added or replaced, and no other file changes |
| Downloader.DownloadRule | src/downloader.py:58-77 | present iff the existence check found the target; downloaded iff it did not and the fetch was accepted and the write completed, with the file then holding the body; an unaccepted fetch changes nothing; a network error, a timeout, a rejection and a write error are each reported as such; a write puts a prefix of the body at the target |
| Downloader.OutcomeIgnoresWrites | src/downloader.py:57-77 | the outcome depends on the existence check and the network, not on what other calls wrote meanwhile |
| Downloader.ExistingTargetNeedsNoFetch | src/downloader.py:58-60 | with the target present the outcome does not depend on the network or the disk |
| Downloader.InterruptedWriteIsNeverRepaired | src/downloader.py:58-69 | a write failing after the open reports a failure and leaves a prefix of the body at the target, which a later attempt reports as present |
| Downloader.DownloadImage | src/downloader.py:51-60 | the URL is reported present, with nothing fetched or written, exactly when its target `join(output_dir, calculate_file_name(url))` already exists; existing files are kept |
| Downloader.DownloadAll | src/downloader.py:44-45 | one outcome per URL; every file present before the run is still there unchanged |
| Downloader.Summarize | src/downloader.py:47 | the total is the number of URLs; all succeeded exactly when every outcome is a success |
| Downloader.EmptyListSummary | src/downloader.py:44-47 | no URLs: summary 0/0 and the directory unchanged |
| Downloader.DownloadImages | src/downloader.py:38-47 | the loop, with every existence check against the directory as the run found it, gives the fold's final directory and outcome summary, with the total equal to the number of URLs |
| Downloader.OutcomesAreIndependent | src/downloader.py:44-45 | each URL's outcome in a run is its outcome alone against the directory the run started from |
| Downloader.RunOutcomesAreSingleCalls | src/downloader.py:44-60 | with the downloader's naming, each outcome is what `download_image` alone reports on the starting directory |
| Downloader.SucceededArePresent | src/downloader.py:57-71 | every URL reported as a success has its target in the final directory |
| Downloader.PresentAreSkipped | src/downloader.py:57-60 | a URL is reported present exactly when its target existed before the run |
| Downloader.AllPresentIsNoOp | src/downloader.py:57-60 | when every target already exists, the run leaves the directory unchanged and reports every URL present |
| Downloader.SharedTargetFetchedAgain | src/downloader.py:44-60 | of two URLs with the same target absent before the run, neither is reported present, the later one whatever happened to the earlier, and each gets its outcome on its own |
| Downloader.InterruptedDuplicateFailsTwice | src/downloader.py:44-77 | the same URL twice with a write that fails before any byte: both fail, the summary is 0/2 and an empty file is left |
| Downloader.LastWriterWins | src/downloader.py:44-69 | a deliverable URL whose target no later URL shares leaves its body at the target, whatever earlier URLs wrote there |
| Downloader.SecondRunKeepsFirst | src/downloader.py:57-60 | on a second run over the same URLs, with any network, every earlier success is reported present, no file of the first run changes, and the success count does not drop |
| Downloader.RerunAfterFullSuccess | src/downloader.py:57-60 | after a run where all URLs succeeded, a second run changes nothing and reports all present, n/n |
| Downloader.DeliverableUrlsSucceed | src/downloader.py:62-77 | a URL that would be fetched, accepted and written succeeds whatever the other URLs do |
| Downloader.FirstFields | src/downloader.py:34-35 | succeeds exactly when no row is empty, then gives every row's first field in order; otherwise it names the first empty row |
| Downloader.ReadInputUrls | src/downloader.py:30-35 | no rows is a missing header; otherwise the first fields of the rows after the header, or the first empty row after it |
| Downloader.DownloadFromRows | src/downloader.py:24-27 | a read error stops the run before any download; otherwise the total equals the number of data rows and existing files are kept |
| GenerateInput.ImgUrl | src/generate_input.py:40 | a URL is given exactly when the `img_url` column is present and not null, and it is that column's value |
| GenerateInput.IsValidUrl | src/generate_input.py:39-40 | valid exactly when the URL is present and its lower-cased text ends with `.jpg`, `.jpeg` or `.png`; a missing, null or empty URL is not valid |
| GenerateInput.CaseInsensitive | src/generate_input.py:40 | URLs equal after lower-casing are both valid or both not |
| GenerateInput.UpperCaseAccepted | src/generate_input.py:40 | `X.JPG` and `x.Png` pass |
| GenerateInput.WrongLastCharRejected | src/generate_input.py:40 | a lower-case URL not ending in 'g' is not valid |
| GenerateInput.QueryOrOtherExtensionRejected | src/generate_input.py:40 | `a.jpg?w=1` and `b.gif` do not pass |
| GenerateInput.Select | src/generate_input.py:28-29 | only valid records, in input order, as many as requested or as there are valid ones, and a prefix of all valid records |
| GenerateInput.SelectIsFirstValid | src/generate_input.py:28-29 | filter-then-take equals the streaming walk that keeps valid records until n are kept |
| GenerateInput.ValidExtensionShape | src/generate_input.py:17 | each valid extension is a '.' followed by `jpg`, `jpeg` or `png` |
| GenerateInput.ExtensionOfDotSuffix | src/downloader.py:82 | for a URL without '?' ending, case aside, in '.' and a dot-free suffix, the downloader's extension is that suffix, case aside |
| GenerateInput.KeptUrlKeepsExtension | src/generate_input.py:39-40 | a selected URL without a query gets a download extension of `jpg`, `jpeg` or `png`, case aside |
| Text.FirstIndex | src/downloader.py:82 | -1 exactly when the character is absent; otherwise its first position |
| Text.LastIndex | src/downloader.py:82 | -1 exactly when the character is absent; otherwise its last position |
| Text.Split | src/downloader.py:82 | at least one piece; no piece holds the separator; joining the pieces with the separator gives back the text |
| Text.SplitHead | src/downloader.py:82 | the first piece is the text before the first separator, or all of it |
| Text.SplitLast | src/downloader.py:82 | the last piece is the text after the last separator, or all of it |
| Text.Lower | src/generate_input.py:40 | lower-casing keeps the length, leaves no upper-case ASCII letter, and changes only upper-case letters, each to its lower-case letter |
| Text.LowerIdempotent | src/generate_input.py:40 | lower-casing twice is lower-casing once |
| Paths.Basename | src/edit_images.py:121 | the final component holds no '/', ends the path and follows a '/' when shorter than it |
| Paths.JoinPath | src/edit_images.py:124 | the result ends with the name; an absolute name replaces the directory; otherwise the result starts with the directory, has a '/' before the name when the directory is not empty, and is exactly one longer than both together unless the directory is empty or ends in '/' |
| Paths.BasenameOfJoin | src/edit_images.py:124 | joining a directory and a plain name gives a path whose final component is that name |
| Paths.JoinPathInjective | src/downloader.py:57 | in one directory distinct relative names give distinct paths |
| Paths.Splitext | src/edit_images.py:122 | root and extension concatenate to the path; the extension is empty or a '.' with no further '.' or '/'; it is non-empty exactly when the final component has a '.' with some character other than '.' before it, and then it starts at the last '.' of the final component |
| Paths.LeadingDotOnly | src/edit_images.py:122 | a name whose only '.' is its first character has no extension |
| Paths.LeadingDotIsNoExtension | src/edit_images.py:122 | `.bashrc` has no extension |
| Paths.LastDotStartsExtension | src/edit_images.py:122 | `a.tar.gz` splits as `a.tar` and `.gz` |
| Paths.DirectoryDotIsNoExtension | src/edit_images.py:122 | `d.x/img` has no extension: a '.' in a directory name does not count |
| EditImages.OutputPath | src/edit_images.py:121-124 | the output is `join(output_dir, output_filename)`: it starts with the output directory, its final component is the edited name of the input's final component, and it is exactly one character (the '/') longer than both unless the directory is empty or ends in '/' |
| EditImages.EditedName | src/edit_images.py:121-123 | the edited name is 7 characters longer than the name and holds no character that neither the name nor `_edited` holds, so a name stays free of '/' |
| EditImages.ResplitEditedName | src/edit_images.py:122-123 | splitting the edited name again gives the stem with `_edited` added and the same extension |
| EditImages.EditedNameInjective | src/edit_images.py:121-123 | different input names give different edited names |
| EditImages.OutputPathDependsOnBasename | src/edit_images.py:121-124 | two inputs get the same output path exactly when their final components agree |
| EditImages.ResizeImage | src/edit_images.py:57-69 | an image with at most max_pixels² pixels is returned unchanged |
| EditImages.FitsSidesNotResized | src/edit_images.py:58-62 | an image no wider and no taller than max_pixels is not resized |
| EditImages.LargerBoundStillNotResized | src/edit_images.py:58-62 | an image left alone under a bound is left alone under any larger bound |
| EditImages.EditImage | src/edit_images.py:82-104 | a success was saved at the requested path; a file that cannot be opened fails at opening |
| EditImages.SavedImageIsGenerated | src/edit_images.py:83-98 | the saved image is the pipeline's output for the resized input |
| EditImages.EditSucceedsIffAllStepsDo | src/edit_images.py:82-104 | `True` exactly when opening, resizing, generating and saving all complete |
| EditImages.EditResultsPointwise | src/edit_images.py:120-132 | the i-th result is the edit of the i-th input into its own output path |
| EditImages.EditStep | src/edit_images.py:126-133 | one more input appends its result and adds one to the count exactly when it succeeded |
| EditImages.EditLoop | src/edit_images.py:119-133 | for any naming of the outputs, the loop's results are the edits in input order, and the count is the number of successes, at most the number of inputs |
| EditImages.EditAll | src/edit_images.py:119-135 | with each input saved under its edited name in the output directory, the results are the edits in input order and the count is the number of successes, at most the number of inputs |
| EditImages.SavedPathsDistinct | src/edit_images.py:120-124 | when the inputs' final components differ, no two saved images share an output path |
| Seqs.Filter | src/generate_input.py:28 | keeps exactly the elements satisfying the predicate, in order, as many as it counts |
| Seqs.Take | src/generate_input.py:29 | a prefix of length n, or the whole sequence when it is shorter |
| Seqs.Count | src/downloader.py:47 | the count is at most the length, and equals it exactly when every element satisfies the predicate |

## Left out

- Concurrency: the semaphore of 32 and the interleaving of `tqdm.gather` are not modelled.
  - Every existence check sees the directory as the run found it, as it does in the program.
  - Writes to the directory are applied in input order. The program may complete them in any order.
- `Downloader.LastWriterWins`: the lemma holds only because writes land in input order. In the program, `gather` can let an earlier URL's write to the same target land after URL j's. That leaves a different or truncated file, and the model cannot reach this.
- `Downloader.DownloadAll`: `fetch` is a function of the URL and `write` is a function of the path.
  - So in one run, two fetches of the same URL give the same response.
  - Two writes to the same target have the same result.
  - Copies of one URL therefore always get equal outcomes (`DuplicateUrlsAgree`).
  - In the program they are separate requests and separate opens and writes (lines 64-69). One copy can succeed while the other fails, giving 1 of 2 and leaving the body.
- `Downloader.TargetPath`: a file name holding '/' points into a subdirectory that nothing creates. In the program, opening it always fails. The model leaves this to `write`: the program's behaviour is the case where `write` gives `OpenFailed` for such paths.
- The 8-second timeout is not modelled as a clock. A timeout is one of the results `fetch` may give.
- `aiohttp`, `aiofiles`, `os.makedirs`, logging, `print`, `tqdm` and `argparse`: these are I/O. The network and the disk are the `Io` parameter; the directory is assumed to exist.
- `Downloader.FileName`: SHA-1 is not computed. The `Hasher` parameter stands for it, so collision freedom is never assumed.
- `Downloader.ReadInputUrls`: the CSV file is given already split into rows of fields. Quoting and file opening are not modelled.
- `Text.Lower`: only ASCII letters are lower-cased. Python's `str.lower` is Unicode-wide.
- `EditImages.ResizeImage`: the floating-point scale factor, `int` truncation and the LANCZOS resize are the `shrink` parameter. Only the integer guard is modelled.
- The diffusion pipeline, the model loading, the fixed seed 42, the device choice and `glob` are not modelled. The pipeline is the `generate` parameter; the input paths are given as a sequence.
- `src/generate_captions.py` and the top-level `generate_input.py` are not part of this model.
- `GenerateInput.Select`:
  - Loading, streaming and column selection of the dataset are not modelled; records are given as maps.
  - `to_csv` is not modelled.
  - `n` is a natural number, so negative counts are not modelled.
- `GenerateInput.IsValidUrl`: a URL value that is not a string is not modelled; the column holds strings or null.
