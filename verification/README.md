# VidExtract decision core in Dafny

VidExtract is a Qt desktop front end for `yt-dlp`. It downloads videos, audio
and playlists, installs FFmpeg on Windows, and keeps a few user settings. Most
of the program is widget, thread and network plumbing. This project models the
pure decisions inside that plumbing and proves what they guarantee:

- **Sanitize**: `sanitize_filename`, both copies. Regex filters, run
  collapsing, `strip()` and word-boundary truncation. The input is taken after
  Unicode NFKD normalisation.
- **DownloadOptions**: the option-building part of `DownloadThread.run` and
  `get_yt_dlp_format`. A download request, one language's label table and the
  results of the filesystem probes become:
  - the format selector;
  - the post-processor;
  - the output template;
  - the playlist flags;
  - the FFmpeg location;
  - the cookie file;
  - the subtitle languages;
  - the single finished message of the worker.
- **Progress**: `DownloadThread._progress_hook`. A status dictionary becomes at
  most one `(percent, message)` pair. The percentage is not clamped: an
  underestimated total shows more than 100.
- **Installer**: three pieces of the FFmpeg installer:
  - the release-asset choice with its fallback link;
  - the filter that flattens `bin/` zip entries;
  - the `PATH` merge of `add_to_path`.
- **Classifiers**:
  - the quality labels offered for a video;
  - the language code behind the saved language index;
  - the success/error classification of the worker's final text;
  - the update-result text and its classification;
  - the guard that allows one download at a time.
- **Settings**: `settings_manager.py`. A map over the fixed default table, with
  `value_to_bool`, coercion to the default's type, fallback to the default,
  rejection of unknown keys, and no-op saves of `None`.
- **Text** and **Wrappers**: the Python string built-ins these rely on, and
  `Option`/`Result`. The built-ins are `split`, `join`, `strip`, `lower`,
  `int()` and `str()`.

Python details that are modelled explicitly:

- Whitespace is the ASCII set Python's `str.isspace` accepts (9-13, 28-31, 32).
- `int(x / y)` truncates toward zero.
- Negative list indexes wrap.
- `bool` is an `int` subclass.
- `d.get(k, 0)` returns a stored `None` unchanged. That `None` then makes a
  later comparison raise.

The `LANGUAGES` table (`languages.py`) is not part of this model. It is an
input: a map from language code to a sequence of (key, label) pairs.

## Model

| member | source | states |
|---|---|---|
| Sanitize.SanitizeFilename | vidextract.py:218-227 | the result holds only letters, digits, space, `_`, `#` and `.`; it has no doubled space or underscore and no space at either end; it is at most `max_length` long |
| Sanitize.CleanTextIsClean | vidextract.py:219-224 | the character filters, the two run collapses and `strip()` together already give a clean name |
| Sanitize.Collapse | vidextract.py:222-223 | `re.sub('[..]+', rep)` leaves no two run characters adjacent, is empty only for an empty input, and ends with `rep` exactly when the input ends in a run |
| Sanitize.CollapseKeepsOthers | vidextract.py:222-223 | the characters outside the runs are kept, in their order |
| Sanitize.CollapseDashesKeepsSpacing | vidextract.py:222-223 | collapsing `_`/`-` runs after the whitespace collapse never puts two whitespace characters side by side |
| Sanitize.RSplitOnce | vidextract.py:226 | `rsplit(' ', 1)` gives one or two parts; two parts rebuild the text around its last space; one part means there was no space |
| Sanitize.TruncationCutsAtLastSpace | vidextract.py:225-226 | an over-long name is cut to the first `max_length` characters and then just before their last space; with no space, the prefix is kept whole |
| Sanitize.SanitizeFilenameGuarded | vidextract.py:1158-1170 | the main-window copy, with its `IndexError` fallback, returns the same result as the worker's copy, so the fallback is dead |
| Sanitize.FixedPointIff | vidextract.py:218-227 | a name is left unchanged exactly when it is clean and within the length limit |
| Sanitize.SanitizeIdempotent | vidextract.py:218-227 | sanitising twice gives the same result as sanitising once |
| DownloadOptions.Lookup | vidextract.py:112 | `table[key]` fails exactly when no entry has that key, and otherwise returns a label paired with the key |
| DownloadOptions.FirstKeyWithLabel | vidextract.py:138-141 | the loop with `break` stops at the first entry carrying the label; no earlier entry carries it; none is found only when no entry does |
| DownloadOptions.TargetExtension | vidextract.py:136-143 | the extension is the lower-cased key of the first entry labelled with the chosen output format, or `mp4` when none is |
| DownloadOptions.PathJoin | vidextract.py:125-129 | Windows `os.path.join` keeps both parts and inserts a backslash unless the head is empty, ends in a separator, or is a bare drive |
| DownloadOptions.PlaylistFolderName | vidextract.py:116-123 | the playlist folder is the sanitised title, or `oynatma_listesi` when the title is missing; when the probe raised it is `oynatma_listesi_<now>` cut to 100 characters; it is always a clean name of at most 100 characters |
| DownloadOptions.OutputLayout | vidextract.py:116-129 | a single item is saved as `%(title)s.%(ext)s` in the chosen folder; a playlist goes into the folder joined with the playlist's sanitised folder name, numbered `%(playlist_autonumber)s - ` |
| DownloadOptions.HeightCapIsLeadingRun | vidextract.py:229-233 | a quality label starting with a digit run caps both the video and the fallback at exactly that run, copied verbatim |
| DownloadOptions.HeightCapDefault | vidextract.py:234-235 | a quality label not starting with a digit caps the height at 720 |
| DownloadOptions.AudioBitrate | vidextract.py:150-155 | the extracted-audio quality is 320 exactly for mp3, 256 exactly for m4a, and 192 for every other extension |
| DownloadOptions.FfmpegLocation | vidextract.py:168-182 | the bundled `ffmpeg\bin` wins when `ffmpeg.exe` is there; then the per-user install; otherwise no location, whatever `which` says |
| DownloadOptions.CookieFile | vidextract.py:196-198 | a cookie file is passed exactly when the path is non-empty and exists, and it is that path |
| DownloadOptions.SubtitleLanguages | vidextract.py:201 | an empty entry gives `en`, `tr`; otherwise language i is the i-th comma-separated piece with its whitespace stripped, one per piece (commas plus one), none holding a comma or surrounding whitespace |
| DownloadOptions.SubtitleLanguagesRoundTrip | vidextract.py:201 | when no piece carries surrounding whitespace, joining the languages with commas gives back the text typed |
| DownloadOptions.SubtitleLangs | vidextract.py:200-206 | subtitle options are set exactly when subtitles are requested and the kind is not audio |
| DownloadOptions.ResolveOptions | vidextract.py:110-206 | the run fails exactly when the language or its audio label is missing; otherwise there is exactly one post-processor, `noplaylist` is not-playlist, `ignoreerrors` is playlist, the FFmpeg location is the prioritised one, the cookie file is the one chosen for the path and its existence (set exactly when it exists), and the subtitle languages are the ones chosen for the subtitle box, the audio check and the language text |
| DownloadOptions.AudioRequestOptions | vidextract.py:145-155 | an audio request selects `bestaudio/best` and extracts to the target extension at the policy bitrate, without subtitles |
| DownloadOptions.VideoRequestOptions | vidextract.py:157-204 | a video request selects `bestvideo+bestaudio/best` for `best` and the height-capped selector otherwise, remuxes to the target extension, and asks for subtitles exactly when requested, with the languages split from the comma-separated text |
| DownloadOptions.OutputTemplateLayout | vidextract.py:116-129 | single items go straight into the chosen folder; playlist items go into the chosen folder joined with the playlist's folder name, with the numbered pattern |
| DownloadOptions.RunWorker | vidextract.py:108-214 | the worker completes exactly when the language lookups, the folder creation and the download all succeed, and it reports the output folder it resolved |
| Progress.GetOrDefault | vidextract.py:241-243 | `d.get(k, 0)` gives 0 only for a missing key and passes a stored value, `None` included, unchanged |
| Progress.TotalSize | vidextract.py:240 | a truthy `total_bytes` wins; otherwise `total_bytes_estimate` is read with default 0, so the size is never missing |
| Progress.InfoEntries | vidextract.py:245-246 | a missing `info_dict` reads both entries as `None`; a `None` one raises; in a present dictionary a missing key reads as `None` and a present entry is passed on unchanged |
| Progress.PlaylistPrefix | vidextract.py:248-250 | the `**[Video i/n]**` line appears exactly when both numbers are truthy |
| Progress.TruncDiv | vidextract.py:253 | `int()` of a quotient truncates toward zero |
| Progress.UnitFor | vidextract.py:257-262 | the speed is shown in MB/s exactly from 1 048 576 B/s, in KB/s exactly from 1024 B/s up to that, and in B/s below 1024 |
| Progress.UnitMonotone | vidextract.py:257-262 | a faster download never shows a smaller unit |
| Progress.EtaTextRoundTrip | vidextract.py:264-267 | the remaining-time text reads back as the remaining seconds; it has the minutes form `<q>m <x>s` exactly when more than 60 seconds remain, with `q * 60 + x` the seconds and `x` below 60 |
| Progress.ProgressHook | vidextract.py:237-294 | nothing is emitted exactly for an unknown status; an error status emits its text at 0; every caught exception reports 0; a finished item reports 100; an in-progress bar shows the percent its text states |
| Progress.StartingWithoutSize | vidextract.py:245-276 | a zero or negative size (including a missing estimate, read as 0) gives 0 percent and exactly the playlist prefix followed by the "starting" message |
| Progress.PercentInRange | vidextract.py:252-253 | while the downloaded count is within the size, the percent is between 0 and 100 and is the floor of the exact percentage |
| Progress.ProgressReport | vidextract.py:239-274 | for a positive size, from `total_bytes` or else the estimate, and numeric entries, the report carries the playlist prefix, the truncated percent, the byte counts, the unit for its speed and the remaining-time text; that text reads back as the eta and takes the minutes form exactly above 60 seconds |
| Progress.PercentNotClamped | vidextract.py:252-253 | 250 bytes of an estimated 100 show 250 percent |
| Progress.NoneEntryIsFault | vidextract.py:252-294 | with a positive size, the first `None` among downloaded bytes, speed and eta, in that order, is reported as a fault at 0 percent |
| Progress.NoneInfoDictIsFault | vidextract.py:238-294 | an `info_dict` holding `None` is reported as a fault at 0 percent in both the downloading and the finished branch |
| Progress.NoneSizeIsFault | vidextract.py:252-294 | a `None` size estimate reaches the comparison and is reported at 0 percent by the generic handler |
| Progress.FinishedReport | vidextract.py:278-283 | a finished item reports 100 percent, with the playlist number when it is truthy and the plain text otherwise |
| Progress.NoMissingDataReport | vidextract.py:279-292 | the `KeyError` handler cannot run: the second subscript runs only after the first lookup found a number there |
| Progress.ErrorReport | vidextract.py:285-289 | an error dictionary fills in a fixed text for a missing code or message; a missing error reads `Bilinmeyen hata` |
| Installer.ScanAssets | vidextract.py:74-80 | a link found comes from a wanted asset (name contains `win64-gpl.zip`, not `shared`); none found means no asset is wanted |
| Installer.LatestFfmpegUrl | vidextract.py:62-85 | the result is the fixed fallback or the link of a wanted asset, and `None` only when a wanted asset's link is JSON `null`; a failed request or a status other than 200 gives the fallback |
| Installer.NullLinkGivesNone | vidextract.py:79-82 | a `null` link on the first wanted asset is returned as `None`, not replaced by the fallback |
| Installer.FirstWantedAssetChosen | vidextract.py:74-80 | the first wanted asset's link is returned, provided every earlier asset has a readable name |
| Installer.FirstWantedScanned | vidextract.py:74-80 | the asset loop stops at the first wanted asset and returns what its link holds |
| Installer.NoWantedAssetFallsBack | vidextract.py:74-85 | readable names and no wanted asset give the fallback link |
| Installer.MissingLinkFallsBack | vidextract.py:77-85 | a wanted asset without a link raises, so the fallback is used even if a later asset is wanted |
| Installer.BinEntryName | vidextract.py:377-379 | a kept entry is stored under a non-empty name without `/` |
| Installer.BinEntryShape | vidextract.py:377-379 | every kept entry ends in `bin/<name>`, with `bin` a whole folder name |
| Installer.BinEntryKept | vidextract.py:377-380 | every file directly inside a `bin` folder, at any depth, is kept under its own name |
| Installer.BinFolderSkipped | vidextract.py:378 | a `bin/` directory entry is skipped |
| Installer.WriteEntries | vidextract.py:376-382 | every file written holds an entry whose flattened name is the file's name |
| Installer.ExtractedFiles | vidextract.py:376-382 | every file in `bin` holds an archive entry of that name |
| Installer.LastEntryWins | vidextract.py:376-382 | a name is written exactly when some entry carries it, and the file holds the last such entry |
| Installer.ExtractedFilesLastWins | vidextract.py:376-382 | the `bin` folder has one file per kept name, holding the last archive entry of that name |
| Installer.MergePath | vidextract.py:404-420 | nothing is written exactly when the target, with or without a trailing backslash, survives the removal of `C:\ffmpeg\bin` |
| Installer.MergeWritesSurvivorsThenTarget | vidextract.py:409-420 | a written `PATH` lists the surviving non-empty entries in their old order, then the target |
| Installer.MergeWriteContents | vidextract.py:409-420 | after a write, no `C:\ffmpeg\bin` entry and no empty entry remains, and the target is listed exactly once |
| Installer.MergeIsIdempotent | vidextract.py:409-420 | running the merge again on the value it wrote writes nothing |
| Installer.ListedTargetIsCurrent | vidextract.py:414-417 | a `PATH` that already lists the target is left alone, whatever else it holds |
| Classifiers.Heights | vidextract.py:1459-1461 | a height is collected exactly when some format with video carries it as a truthy height |
| Classifiers.InsertDescending | vidextract.py:1468 | adding a height keeps the list strictly descending and adds exactly that height |
| Classifiers.SortedDistinctDescending | vidextract.py:1468 | `sorted(set(...), reverse=True)` is strictly descending, with the same elements |
| Classifiers.StrictlyDescendingUnique | vidextract.py:1468 | two strictly descending lists with the same elements are equal, so the label order depends only on the set of heights |
| Classifiers.HeightLabelShape | vidextract.py:1463-1475 | every label, fixed or generated, is the height's digits followed by a suffix starting with `p` |
| Classifiers.HeightLabelCapsAtHeight | vidextract.py:229-233 | choosing a positive height's label downloads at most that height |
| Classifiers.HeightLabelInjective | vidextract.py:1463-1475 | distinct heights get distinct labels |
| Classifiers.QualityLabels | vidextract.py:1436-1478 | at least one label is offered |
| Classifiers.QualityLabelsFollowHeights | vidextract.py:1459-1475 | for YouTube the labels are those of the distinct collected heights, highest first, one per height |
| Classifiers.OfferedLabelsAreCollected | vidextract.py:1459-1475 | every label other than `N/A` is the label of a height some video format carries |
| Classifiers.NoQualitiesIffNoHeights | vidextract.py:1477-1478 | `N/A` is offered exactly when the service is not YouTube or no format carries a usable height |
| Classifiers.EveryHeightOffered | vidextract.py:1459-1475 | every collected height's label is offered |
| Classifiers.QualityLabelsDistinct | vidextract.py:1468-1475 | the labels are pairwise distinct, as are the numbers they start with |
| Classifiers.NoQualitiesCapsAt720 | vidextract.py:234-235 | the `N/A` fallback label selects the default 720 cap |
| Classifiers.LanguageCode | vidextract.py:1257-1279 | the code is Turkish or one of the ten language codes |
| Classifiers.CurrentLanguageCode | vidextract.py:1257-1279 | the code of the saved index as `int()` reads it, and `tr` when nothing readable is saved; always Turkish or one of the ten language codes |
| Classifiers.LanguageCodeOfIndex | vidextract.py:1261-1279 | indexes 1 to 10 give the ten codes in the dialog's order; 0, indexes past the list and below -11 give `tr`; a negative index inside the list counts from its end |
| Classifiers.FreshInstallIsTurkish | vidextract.py:1257-1275 | with nothing saved, the window runs in Turkish |
| Classifiers.RestoredComboIndex | vidextract.py:463-467 | the dialog shows entry `saved - 1` for a positive saved index, else the first entry |
| Classifiers.ComboRoundTrip | vidextract.py:590-592 | choosing the c-th language saves an index that yields that language's code and restores the same combo entry |
| Classifiers.ClassifyFinished | vidextract.py:1745-1754 | success exactly when a success marker occurs; error exactly when no success marker but an error marker occurs |
| Classifiers.CompletedIsSuccess | vidextract.py:1745-1747 | a completed download's message is classified as a success |
| Classifiers.FailedIsError | vidextract.py:1745-1751 | a failure message is classified as an error, unless its exception text or traceback carries a success marker |
| Classifiers.UpdateMessage | vidextract.py:322-334 | on success the stripped stdout, or the stripped stderr when stdout is blank; on failure the stripped stderr, or, when that is blank, the unknown-error text whose number reads back as the exit code; when the run raised, the fixed head followed by the exception text |
| Classifiers.ClassifyUpdate | vidextract.py:1680-1695 | "already up-to-date" wins; then "updated" or "successfully" means updated; anything else is an error |
| Classifiers.SilentFailureIsError | vidextract.py:326-327 | a failed update with empty stderr is shown as an error |
| Classifiers.Step | vidextract.py:1608-1656 | a start press while a download runs, or without a URL, changes nothing; otherwise it adds one running worker; a cancel stops the newest worker and leaves the others; a finished worker stops and nothing else changes; no worker is dropped |
| Classifiers.CancelStopsDownload | vidextract.py:1716-1722 | cancelling terminates and waits for the newest worker, after which no download runs |
| Classifiers.StartDecision | vidextract.py:1609-1648 | a download starts exactly when none is running and a URL is given; it is refused exactly when one is running |
| Classifiers.StepKeepsOnlyNewest | vidextract.py:1609-1616 | starting, finishing or cancelling keeps every worker but the newest stopped |
| Classifiers.AtMostOneDownload | vidextract.py:1609-1616 | after any sequence of presses and worker ends, at most one download runs |
| Settings.DefaultKeysAreTheDefaults | settings_manager.py:14-20 | the default table has exactly the five distinct keys |
| Settings.ValueToBool | settings_manager.py:53-60 | a bool is itself; a string is true exactly when its lower-case form is `true`, `1`, `t`, `yes` or `y`; an int is true exactly when non-zero; anything else is false |
| Settings.Coerce | settings_manager.py:38-45 | the value read has the type of the default; an integer default takes the value's integer reading, or stays the default when `int()` would raise |
| Settings.GetSetting | settings_manager.py:30-45 | an unknown key fails (`KeyError`); a known key reads a value of its default's type |
| Settings.UnsavedReadsDefault | settings_manager.py:34-36 | a key never saved reads as its default |
| Settings.IntegerTextReadsBack | settings_manager.py:39-40 | an integer saved as its decimal text reads back as the integer |
| Settings.MalformedIntegerReadsDefault | settings_manager.py:44-45 | text `int()` rejects reads as the default index 1 |
| Settings.BooleanTextReadsBack | settings_manager.py:41-42 | a bool saved as `str()` text reads back as that bool |
| Settings.SaveSetting | settings_manager.py:22-28 | saving `None` changes nothing; any other value is stored under the key; every other key is unchanged |
| Settings.SaveThenGet | settings_manager.py:22-45 | reading after saving gives the saved value coerced to the key's type, exactly that value when it already has the type, and leaves other keys as they were |
| Settings.SaveNoneIsNoOp | settings_manager.py:23-25 | saving `None` changes nothing that can be read |
| Settings.CoerceKeepsSameKind | settings_manager.py:38-43 | a value already of the default's type reads back unchanged |
| Settings.GetAllSettings | settings_manager.py:47-51 | exactly one entry per default key, each equal to what `get_setting` reads |
| Settings.FreshStoreReadsDefaults | settings_manager.py:47-51 | a fresh store reads as the default table |
| Text.ParseIntRoundTrip | settings_manager.py:40 | `int(str(i)) == i` |

## Left out

- Unicode NFKD normalisation is not modelled: the sanitiser's input is the already normalised text.
- `\d`, `\s`, `isspace` and `lower()` are modelled on ASCII only. The keyword tests and the digit run behave the same on ASCII text.
- Floating point is left out: the megabyte and speed figures formatted with `%.2f` are kept as integers in a structured message.
- Progress.Percent: computed exactly as `100 * downloaded` divided by `total`, truncated toward zero. The source computes `downloaded / total * 100` in floating point, which can give one less (29 of 100 gives 28).
- Progress: error values that are neither strings nor dictionaries, and float byte counts, are not modelled.
- The text of `str(e)` for exceptions raised inside the hook and the worker is modelled only for `KeyError`. Other faults are kept as a structured `Fault`.
- The traceback text is an input of the finished message.
- `yt_dlp` itself is foreign I/O. Its info extraction, the playlist probe and the download are inputs of `Environment`, as are `requests`, `subprocess`, `os.makedirs`, `os.path.exists`, `shutil.which` and `time.time`.
- The playlist first-entry probe of the video-info step is foreign I/O. The `formats` list the quality labels are built from is an input.
- DownloadOptions.PlaylistFolderName: a probe reply whose `title` is present but `None` makes `sanitize_filename` raise and take the time-stamped fallback; that reply is modelled as `ProbeFailed`.
- DownloadOptions.PathJoin: only the Windows `ntpath.join` cases that occur here are modelled (a relative second part). UNC paths and drive-relative second parts are not.
- Installer.ExtractedFiles: the last part of an entry name is joined to the `bin` folder as a plain file name. The model does not treat `.` or `..`, which would make opening the file raise, nor a drive-qualified part such as `D:x`, for which `os.path.join` drops the `bin` folder.
- Installer.WriteEntries: file names are compared case-sensitively. On Windows `bin/FFMPEG.exe` and `bin/ffmpeg.exe` write the same file, where the model keeps two.
- Installer.LatestFfmpegUrl: a `browser_download_url` that is neither a string nor `null` is not modelled.
- Windows registry access, the `WM_SETTINGCHANGE` broadcast, and the zip file bytes are left out. The backslash normalisation of zip entry names by `zipfile` is not modelled either.
- The FFmpeg download's own progress messages and the deletion of an old install are left out: they are I/O.
- QSettings persistence and Qt's `type=` conversion are left out. The store is an in-memory map and the stored value goes straight to the Python coercion.
- Qt's handling of combo-box indexes outside the list is not modelled.
- Widgets, animations, dialogs, the splash screen, thread termination and the clipboard/URL regular expressions are left out: they are UI and concurrency.
- `modern_style.py` (a colour table and a style sheet template) is not part of this model, and neither is `logger_setup.py` (log handler setup).
- Sanitize.SanitizeFilename: `max_length` is a natural number; the source's default is 100 and a negative value never reaches it.
