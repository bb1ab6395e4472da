/** The option-building part of `DownloadThread.run` (vidextract.py) and
    `get_yt_dlp_format`: how an immutable download request, one language's
    label table and the results of a few filesystem probes become the yt-dlp
    option record, and how the run ends in exactly one finished message.

    yt-dlp itself, the flat playlist probe, `os.makedirs` and the download
    call are not part of this model; their outcomes are fields of
    `Environment`. */
module DownloadOptions {
  import opened Wrappers
  import opened Text
  import Sanitize

  /** One language's entries of the `LANGUAGES` table, in dictionary order. */
  type LangTable = seq<(string, string)>

  const AudioLabelKey := "list_type_audio"
  const SingleItemPattern := "%(title)s.%(ext)s"
  const PlaylistItemPattern := "%(playlist_autonumber)s - %(title)s.%(ext)s"
  const PlaylistFallbackTitle := "oynatma_listesi"

  /** `table[key]`; `None` where Python raises `KeyError`. */
  function Lookup(table: LangTable, key: string): (r: Option<string>)
    ensures r.None? <==> forall i :: 0 <= i < |table| ==> table[i].0 != key
    ensures r.Some? ==> (key, r.value) in table
    decreases |table|
  {
    if |table| == 0 then None
    else if table[0].0 == key then Some(table[0].1)
    else Lookup(table[1..], key)
  }

  /** The position of the first entry whose label is `wanted` (the loop with
      `break` over `lang_dict.items()`). */
  function FirstKeyWithLabel(table: LangTable, wanted: string): (r: Option<nat>)
    ensures r.Some? ==> r.value < |table| && table[r.value].1 == wanted
                        && forall j :: 0 <= j < r.value ==> table[j].1 != wanted
    ensures r.None? ==> forall j :: 0 <= j < |table| ==> table[j].1 != wanted
    decreases |table|
  {
    if |table| == 0 then None
    else if table[0].1 == wanted then Some(0)
    else match FirstKeyWithLabel(table[1..], wanted)
      case None => None
      case Some(i) => Some(i + 1)
  }

  /** `target_format_key.lower()`: the lower-cased key of the first entry
      labelled `outputFormat`, `mp4` when no entry carries that label. */
  function TargetExtension(table: LangTable, outputFormat: string): (ext: string)
    ensures (exists i :: 0 <= i < |table| && table[i].1 == outputFormat
               && (forall j :: 0 <= j < i ==> table[j].1 != outputFormat)
               && ext == Lower(table[i].0))
         || ((forall j :: 0 <= j < |table| ==> table[j].1 != outputFormat) && ext == "mp4")
  {
    match FirstKeyWithLabel(table, outputFormat)
    case Some(i) => Lower(table[i].0)
    case None => "mp4"
  }

  // ---------------------------------------------------------------------------
  // Request and environment

  datatype DownloadRequest = DownloadRequest(
    url: string,
    downloadFolder: string,
    quality: string,
    videoFormat: string,
    outputFormat: string,
    downloadTypeKey: string,
    languageCode: string,
    downloadSubs: bool,
    subLangs: string,
    cookieFilePath: string)

  /** The flat metadata probe of a playlist: it raised, or it returned an info
      dictionary whose `title` entry may be missing. */
  datatype PlaylistProbe = ProbeFailed | ProbeTitle(title: Option<string>)

  datatype Environment = Environment(
    playlistProbe: PlaylistProbe,
    now: nat,                          // int(time.time())
    bundleDir: Option<string>,         // sys._MEIPASS when running frozen
    bundledFfmpegExists: bool,         // <bundle>/ffmpeg/bin/ffmpeg.exe exists
    appDataBinPath: string,            // TARGET_BIN_PATH
    appDataFfmpegExists: bool,         // TARGET_BIN_PATH/ffmpeg.exe exists
    systemFfmpegFound: bool,           // shutil.which("ffmpeg") is truthy
    cookieFileExists: bool,            // os.path.exists(cookie_file_path)
    makeDirsError: Option<string>,     // str(e) if os.makedirs raised
    downloadError: Option<string>,     // str(e) if ydl.download raised
    traceback: string)                 // traceback.format_exc() of that fault

  datatype PostProcessor =
    | ExtractAudio(preferredCodec: string, preferredQuality: string)
    | VideoRemuxer(preferedFormat: string)

  /** The yt-dlp option dictionary, less the progress hook and the constant
      `quiet`/`nooverwrites` entries. */
  datatype Options = Options(
    format: string,
    outputTemplate: string,
    postprocessors: seq<PostProcessor>,
    noPlaylist: bool,
    ignoreErrors: bool,
    ffmpegLocation: Option<string>,
    cookieFile: Option<string>,
    subtitleLangs: Option<seq<string>>)

  datatype Plan = Plan(outputBase: string, options: Options)

  /** A `KeyError` raised while reading the language table. */
  datatype Fault = UnknownLanguage(code: string) | MissingLabel(key: string)

  // ---------------------------------------------------------------------------
  // Paths

  predicate IsSeparator(c: char) {
    c == '\\' || c == '/'
  }

  /** `os.path.join(a, b)` on Windows for a `b` without drive or root, the only
      kind joined here: a backslash goes between the parts unless `a` is
      empty, already ends in a separator, or is a bare drive such as `C:`. */
  function PathJoin(a: string, b: string): (r: string)
    ensures a <= r && |b| <= |r| && r[|r| - |b|..] == b
    ensures r == a + b <==> |a| == 0 || IsSeparator(a[|a| - 1]) || (|a| == 2 && a[1] == ':')
    ensures r != a + b ==> r == a + "\\" + b
  {
    if |a| == 0 || IsSeparator(a[|a| - 1]) || (|a| == 2 && a[1] == ':') then a + b
    else a + "\\" + b
  }

  /** The sub-folder of a playlist download: its sanitised title, the literal
      fallback when the probe found no title, or a time-stamped name when the
      probe raised. */
  function PlaylistFolderName(probe: PlaylistProbe, now: nat): (name: string)
    ensures Sanitize.IsClean(name) && |name| <= Sanitize.DefaultMaxLength
    ensures probe.ProbeTitle? ==>
      name == Sanitize.SanitizeFilename(probe.title.GetOr(PlaylistFallbackTitle), Sanitize.DefaultMaxLength)
    ensures probe.ProbeFailed? ==>
      var stamped := PlaylistFallbackTitle + "_" + NatToString(now);
      name == if |stamped| <= Sanitize.DefaultMaxLength then stamped else stamped[..Sanitize.DefaultMaxLength]
  {
    match probe
    case ProbeTitle(title) => Sanitize.SanitizeFilename(title.GetOr(PlaylistFallbackTitle), Sanitize.DefaultMaxLength)
    case ProbeFailed =>
      StampedNameIsClean(now);
      Sanitize.SanitizeFilename(PlaylistFallbackTitle + "_" + NatToString(now), Sanitize.DefaultMaxLength)
  }

  /** The time-stamped fallback passes the sanitiser's character filters
      untouched: only its length can be cut. */
  lemma StampedNameIsClean(now: nat)
    ensures var stamped := PlaylistFallbackTitle + "_" + NatToString(now);
      Sanitize.SanitizeFilename(stamped, Sanitize.DefaultMaxLength)
        == if |stamped| <= Sanitize.DefaultMaxLength then stamped else stamped[..Sanitize.DefaultMaxLength]
  {
    var head := PlaylistFallbackTitle + "_";
    assert Sanitize.IsClean(head) && ' ' !in head;
    Sanitize.CleanThenDigits(head, NatToString(now));
    assert head + NatToString(now) == PlaylistFallbackTitle + "_" + NatToString(now);
    Sanitize.SpacelessCleanSanitized(head + NatToString(now), Sanitize.DefaultMaxLength);
  }

  /** `(output_path_base, raw_output_template)`. */
  function OutputLayout(folder: string, isPlaylist: bool, env: Environment): (r: (string, string))
    ensures !isPlaylist ==> r.0 == folder && r.1 == PathJoin(folder, SingleItemPattern)
    ensures isPlaylist ==> r.0 == PathJoin(folder, PlaylistFolderName(env.playlistProbe, env.now))
    ensures isPlaylist ==> exists name :: Sanitize.IsClean(name) && |name| <= Sanitize.DefaultMaxLength
                             && r.0 == PathJoin(folder, name)
    ensures isPlaylist ==> r.1 == PathJoin(r.0, PlaylistItemPattern)
  {
    if isPlaylist then
      var base := PathJoin(folder, PlaylistFolderName(env.playlistProbe, env.now));
      (base, PathJoin(base, PlaylistItemPattern))
    else (folder, PathJoin(folder, SingleItemPattern))
  }

  // ---------------------------------------------------------------------------
  // Format selection and post-processing

  function CappedSelector(cap: string): string {
    "bestvideo[height<=" + cap + "]+bestaudio/best[height<=" + cap + "]"
  }

  /** `get_yt_dlp_format(quality, _)`. */
  function HeightCappedFormat(quality: string): string {
    var digits := LeadingDigits(quality);
    if |digits| > 0 then CappedSelector(digits) else CappedSelector("720")
  }

  /** A label that starts with a digit run caps the height at exactly that
      run, copied verbatim (leading zeros included). */
  lemma {:induction false} HeightCapIsLeadingRun(digits: string, rest: string)
    requires |digits| > 0 && AllDigits(digits)
    requires |rest| > 0 ==> !IsDigit(rest[0])
    ensures HeightCappedFormat(digits + rest) == CappedSelector(digits)
  {
    LeadingDigitsOf(digits, rest);
  }

  /** A label that does not start with a digit caps the height at 720. */
  lemma HeightCapDefault(quality: string)
    requires |quality| == 0 || !IsDigit(quality[0])
    ensures HeightCappedFormat(quality) == CappedSelector("720")
  {
  }

  /** The `preferredquality` policy of `FFmpegExtractAudio`. */
  function AudioBitrate(ext: string): (kbps: string)
    ensures kbps == "320" <==> ext == "mp3"
    ensures kbps == "256" <==> ext == "m4a"
    ensures kbps == "192" <==> ext != "mp3" && ext != "m4a"
  {
    if ext == "mp3" then "320" else if ext == "m4a" then "256" else "192"
  }

  function FormatSelector(isAudio: bool, quality: string): string {
    if isAudio then "bestaudio/best"
    else if quality == "best" then "bestvideo+bestaudio/best"
    else HeightCappedFormat(quality)
  }

  function PostProcessorFor(isAudio: bool, ext: string): PostProcessor {
    if isAudio then ExtractAudio(ext, AudioBitrate(ext)) else VideoRemuxer(ext)
  }

  // ---------------------------------------------------------------------------
  // FFmpeg, cookies, subtitles

  /** `ffmpeg_location`: the bundled copy first, then the per-user install;
      otherwise `None`, which lets yt-dlp search `PATH`. Whether `PATH` has
      an ffmpeg only changes a log line. */
  function FfmpegLocation(env: Environment): (loc: Option<string>)
    ensures env.bundleDir.Some? && env.bundledFfmpegExists ==>
              loc == Some(PathJoin(PathJoin(env.bundleDir.value, "ffmpeg"), "bin"))
    ensures !(env.bundleDir.Some? && env.bundledFfmpegExists) && env.appDataFfmpegExists ==>
              loc == Some(env.appDataBinPath)
    ensures !(env.bundleDir.Some? && env.bundledFfmpegExists) && !env.appDataFfmpegExists ==>
              loc.None?
  {
    if env.bundleDir.Some? && env.bundledFfmpegExists then
      Some(PathJoin(PathJoin(env.bundleDir.value, "ffmpeg"), "bin"))
    else if env.appDataFfmpegExists then Some(env.appDataBinPath)
    else None
  }

  function CookieFile(path: string, exists_: bool): (r: Option<string>)
    ensures r.Some? <==> |path| > 0 && exists_
    ensures r.Some? ==> r.value == path
  {
    if |path| > 0 && exists_ then Some(path) else None
  }

  function StripEach(parts: seq<string>): (r: seq<string>)
    ensures |r| == |parts|
    ensures forall i :: 0 <= i < |parts| ==> r[i] == Strip(parts[i])
  {
    seq(|parts|, i requires 0 <= i < |parts| => Strip(parts[i]))
  }

  /** `[lang.strip() for lang in sub_langs.split(',')] if sub_langs else ['en', 'tr']`. */
  function SubtitleLanguages(subLangs: string): (langs: seq<string>)
    ensures |subLangs| == 0 ==> langs == ["en", "tr"]
    ensures |subLangs| > 0 ==> |langs| == |Split(subLangs, ',')|
    ensures |subLangs| > 0 ==> forall i :: 0 <= i < |langs| ==> langs[i] == Strip(Split(subLangs, ',')[i])
    ensures |subLangs| > 0 ==> |langs| == multiset(subLangs)[','] + 1
    ensures |subLangs| > 0 ==> forall i :: 0 <= i < |langs| ==>
              ',' !in langs[i] && (|langs[i]| > 0 ==> !IsSpace(langs[i][0]) && !IsSpace(langs[i][|langs[i]| - 1]))
  {
    if |subLangs| == 0 then ["en", "tr"]
    else
      StrippedPieces(subLangs);
      StripEach(Split(subLangs, ','))
  }

  /** The stripped comma-separated pieces: one more than there are commas, none
      holding a comma or surrounding whitespace. */
  lemma StrippedPieces(subLangs: string)
    ensures var langs := StripEach(Split(subLangs, ','));
      && |langs| == multiset(subLangs)[','] + 1
      && forall i :: 0 <= i < |langs| ==>
           ',' !in langs[i] && (|langs[i]| > 0 ==> !IsSpace(langs[i][0]) && !IsSpace(langs[i][|langs[i]| - 1]))
  {
    var parts := Split(subLangs, ',');
    SplitCount(subLangs, ',');
    var langs := StripEach(parts);
    forall i | 0 <= i < |langs|
      ensures ',' !in langs[i]
    {
      assert parts[i] in parts;
      StripKeepsChars(parts[i]);
    }
  }

  /** When no entry carries surrounding whitespace, joining the languages back
      with commas gives the text the user typed. */
  lemma SubtitleLanguagesRoundTrip(subLangs: string)
    requires |subLangs| > 0
    requires forall i :: 0 <= i < |Split(subLangs, ',')| ==> Strip(Split(subLangs, ',')[i]) == Split(subLangs, ',')[i]
    ensures Join(SubtitleLanguages(subLangs), ',') == subLangs
  {
    var parts := Split(subLangs, ',');
    assert StripEach(parts) == parts;
    JoinSplit(subLangs, ',');
  }

  function SubtitleLangs(downloadSubs: bool, isAudio: bool, subLangs: string): (r: Option<seq<string>>)
    ensures r.Some? <==> downloadSubs && !isAudio
    ensures r.Some? ==> r.value == SubtitleLanguages(subLangs)
  {
    if downloadSubs && !isAudio then Some(SubtitleLanguages(subLangs)) else None
  }

  // ---------------------------------------------------------------------------
  // The whole option record

  predicate IsPlaylist(req: DownloadRequest) {
    req.downloadTypeKey == "playlist"
  }

  /** The label that marks an audio request in the request's language. */
  function AudioLabel(req: DownloadRequest, languages: map<string, LangTable>): Option<string> {
    if req.languageCode in languages then Lookup(languages[req.languageCode], AudioLabelKey) else None
  }

  /** Steps of `DownloadThread.run` from the language lookup up to the
      `ydl_opts` dictionary. */
  function ResolveOptions(req: DownloadRequest, languages: map<string, LangTable>, env: Environment): (r: Result<Plan, Fault>)
    ensures r.Failure? <==> AudioLabel(req, languages).None?
    ensures r.Failure? && req.languageCode !in languages ==> r.error == UnknownLanguage(req.languageCode)
    ensures r.Success? ==> var o := r.value.options;
      && |o.postprocessors| == 1
      && o.noPlaylist == !IsPlaylist(req)
      && o.ignoreErrors == IsPlaylist(req)
      && o.ffmpegLocation == FfmpegLocation(env)
      && o.cookieFile == CookieFile(req.cookieFilePath, env.cookieFileExists)
      && (o.cookieFile.Some? <==> |req.cookieFilePath| > 0 && env.cookieFileExists)
      && o.subtitleLangs == SubtitleLangs(req.downloadSubs, req.videoFormat == AudioLabel(req, languages).value, req.subLangs)
  {
    if req.languageCode !in languages then Failure(UnknownLanguage(req.languageCode))
    else
      var table := languages[req.languageCode];
      match Lookup(table, AudioLabelKey)
      case None => Failure(MissingLabel(AudioLabelKey))
      case Some(audioLabel) =>
        var isPlaylist := IsPlaylist(req);
        var isAudio := req.videoFormat == audioLabel;
        var layout := OutputLayout(req.downloadFolder, isPlaylist, env);
        var ext := TargetExtension(table, req.outputFormat);
        Success(Plan(layout.0, Options(
          FormatSelector(isAudio, req.quality),
          layout.1,
          [PostProcessorFor(isAudio, ext)],
          !isPlaylist,
          isPlaylist,
          FfmpegLocation(env),
          CookieFile(req.cookieFilePath, env.cookieFileExists),
          SubtitleLangs(req.downloadSubs, isAudio, req.subLangs))))
  }

  /** An audio request asks for the best audio stream and extracts it to the
      target extension at the policy bitrate, without subtitles. */
  lemma AudioRequestOptions(req: DownloadRequest, languages: map<string, LangTable>, env: Environment)
    requires AudioLabel(req, languages) == Some(req.videoFormat)
    ensures var r := ResolveOptions(req, languages, env);
      var ext := TargetExtension(languages[req.languageCode], req.outputFormat);
      && r.Success?
      && r.value.options.format == "bestaudio/best"
      && r.value.options.postprocessors == [ExtractAudio(ext, AudioBitrate(ext))]
      && r.value.options.subtitleLangs.None?
  {
  }

  /** A video request remuxes to the target extension; `best` is
      unconstrained, anything else is height-capped by its label. Subtitles
      are requested exactly when the user asked for them. */
  lemma VideoRequestOptions(req: DownloadRequest, languages: map<string, LangTable>, env: Environment)
    requires AudioLabel(req, languages).Some? && AudioLabel(req, languages) != Some(req.videoFormat)
    ensures var r := ResolveOptions(req, languages, env);
      var ext := TargetExtension(languages[req.languageCode], req.outputFormat);
      && r.Success?
      && r.value.options.format == (if req.quality == "best" then "bestvideo+bestaudio/best" else HeightCappedFormat(req.quality))
      && r.value.options.postprocessors == [VideoRemuxer(ext)]
      && (r.value.options.subtitleLangs.Some? <==> req.downloadSubs)
      && r.value.options.subtitleLangs == (if req.downloadSubs then Some(SubtitleLanguages(req.subLangs)) else None)
  {
  }

  /** Where the files go: straight into the chosen folder for a single item,
      into a sanitised sub-folder with numbered names for a playlist. */
  lemma OutputTemplateLayout(req: DownloadRequest, languages: map<string, LangTable>, env: Environment)
    requires AudioLabel(req, languages).Some?
    ensures var plan := ResolveOptions(req, languages, env).value;
      && (!IsPlaylist(req) ==>
            plan.outputBase == req.downloadFolder
            && plan.options.outputTemplate == PathJoin(req.downloadFolder, SingleItemPattern))
      && (IsPlaylist(req) ==>
            plan.outputBase == PathJoin(req.downloadFolder, PlaylistFolderName(env.playlistProbe, env.now))
            && plan.options.outputTemplate == PathJoin(plan.outputBase, PlaylistItemPattern))
  {
  }

  // ---------------------------------------------------------------------------
  // The finished message

  datatype WorkerOutcome = Completed(outputBase: string) | Failed(detail: string)

  function FaultDetail(f: Fault): string {
    match f
    case UnknownLanguage(code) => "'" + code + "'"
    case MissingLabel(key) => "'" + key + "'"
  }

  /** How the run ends: the first fault raised, or completion with the output
      folder. */
  function RunWorker(req: DownloadRequest, languages: map<string, LangTable>, env: Environment): (o: WorkerOutcome)
    ensures o.Completed? <==> AudioLabel(req, languages).Some? && env.makeDirsError.None? && env.downloadError.None?
    ensures o.Completed? ==> o.outputBase == ResolveOptions(req, languages, env).value.outputBase
  {
    match ResolveOptions(req, languages, env)
    case Failure(f) => Failed(FaultDetail(f))
    case Success(plan) =>
      if env.makeDirsError.Some? then Failed(env.makeDirsError.value)
      else if env.downloadError.Some? then Failed(env.downloadError.value)
      else Completed(plan.outputBase)
  }

  const SuccessHead := "✅ İndirme tamamlandı!\nDosyalar '"
  const SuccessTail := "' klasörüne kaydedildi."
  const FailureHead := "Hata oluştu: "

  /** The one string `finished_signal` carries. */
  function FinishedMessage(o: WorkerOutcome, traceback: string): string {
    match o
    case Completed(base) => SuccessHead + base + SuccessTail
    case Failed(detail) => FailureHead + detail + "\n" + traceback
  }
}
