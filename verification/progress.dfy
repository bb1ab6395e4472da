/** The download progress hook (`DownloadThread._progress_hook`): yt-dlp calls it
    with a status dictionary, and it turns that dictionary into at most one
    `(percent, message)` pair for the progress bar and the status label.

    A dictionary value is `Absent` (the key is missing), `Null` (present with
    value `None`) or a number. `d.get(k, 0)` gives `0` only for a missing key,
    so a `None` value flows on and makes a later comparison raise `TypeError`;
    the hook's generic `except` turns that into a `(0, " " + str(e))` pair. */
module Progress {
  import opened Wrappers
  import opened Text

  datatype Field = Absent | Null | Num(n: int)

  /** The `info_dict` entry: missing, `None`, or a dictionary of which only
      `playlist_autonumber` and `n_entries` are read. */
  datatype InfoField = InfoAbsent | InfoNull | Info(playlistAutonumber: Field, nEntries: Field)

  /** The `error` entry of an `error` status: missing, a string, or a dictionary
      whose `code` and `message` keys hold their `str()` text when present. */
  datatype ErrorValue = ErrorAbsent | ErrorText(text: string) | ErrorDict(code: Option<string>, message: Option<string>)

  datatype Status = Downloading | Finished | ErrorStatus | OtherStatus

  datatype Event = Event(
    status: Status,
    totalBytes: Field,
    totalBytesEstimate: Field,
    downloadedBytes: Field,
    speed: Field,
    eta: Field,
    info: InfoField,
    error: ErrorValue)

  /** The exceptions the hook body can raise. `NoneOperand` names the entry whose
      `None` value reached an arithmetic operator or a comparison. */
  datatype Exception = KeyError(key: string) | NoneOperand(entry: string) | NoneInfoDict

  datatype SpeedUnit = BytesPerSecond | KilobytesPerSecond | MegabytesPerSecond

  /** The status-label text. The in-progress line is kept structured because it
      formats floating-point megabytes and speeds with two decimals. */
  datatype Message =
    | InProgress(prefix: string, percent: int, downloadedBytes: int, totalBytes: int,
                 speed: int, unit: SpeedUnit, eta: string)
    | Text(text: string)
    | Fault(exception: Exception)

  datatype Update = Update(percent: int, message: Message)

  const StartingText := "⏳ İndirme başlatılıyor... Lütfen bekleyin."
  const AllFinishedText := "✅ **İndirme tamamlandı!**"
  const UnknownError := "Bilinmeyen hata"
  const UnknownCode := "Bilinmeyen kod"
  const NoDescription := "Açıklama bulunamadı."
  const MissingDataHead := "⚠️ Eksik veri hatası: "

  /** Python truthiness of a dictionary value. */
  predicate Truthy(f: Field) {
    f.Num? && f.n != 0
  }

  /** `d.get(key, default)`. */
  function GetOrDefault(f: Field, default: int): (r: Field)
    ensures f.Absent? ==> r == Num(default)
    ensures !f.Absent? ==> r == f
  {
    if f.Absent? then Num(default) else f
  }

  /** `d.get('total_bytes') or d.get('total_bytes_estimate', 0)`. */
  function TotalSize(e: Event): (r: Field)
    ensures Truthy(e.totalBytes) ==> r == e.totalBytes
    ensures !Truthy(e.totalBytes) ==> r == GetOrDefault(e.totalBytesEstimate, 0)
    ensures !r.Absent?
  {
    if Truthy(e.totalBytes) then e.totalBytes else GetOrDefault(e.totalBytesEstimate, 0)
  }

  /** `d.get('info_dict', {}).get(key)` for the two keys read: a missing key
      reads as `None`; a `None` dictionary raises `AttributeError`. */
  function InfoEntries(info: InfoField): (r: Result<(Field, Field), Exception>)
    ensures r.Failure? <==> info.InfoNull?
    ensures r.Success? ==> !r.value.0.Absent? && !r.value.1.Absent?
    ensures info.InfoAbsent? ==> r == Success((Null, Null))
    ensures info.Info? && !info.playlistAutonumber.Absent? ==> r.value.0 == info.playlistAutonumber
    ensures info.Info? && !info.nEntries.Absent? ==> r.value.1 == info.nEntries
    ensures info.Info? && info.playlistAutonumber.Absent? ==> r.value.0 == Null
    ensures info.Info? && info.nEntries.Absent? ==> r.value.1 == Null
  {
    match info
    case InfoAbsent => Success((Null, Null))
    case InfoNull => Failure(NoneInfoDict)
    case Info(a, n) => Success((if a.Absent? then Null else a, if n.Absent? then Null else n))
  }

  /** The `**[Video i/n]**` line, written only when both numbers are truthy. */
  function PlaylistPrefix(autonumber: Field, nEntries: Field): (p: string)
    ensures |p| > 0 <==> Truthy(autonumber) && Truthy(nEntries)
    ensures |p| > 0 ==> p == "**[Video " + IntToString(autonumber.n) + "/" + IntToString(nEntries.n) + "]**\n"
  {
    if Truthy(autonumber) && Truthy(nEntries) then
      "**[Video " + IntToString(autonumber.n) + "/" + IntToString(nEntries.n) + "]**\n"
    else ""
  }

  /** `int(x)` of the quotient `a / b`: truncation toward zero. */
  function TruncDiv(a: int, b: int): (q: int)
    requires b > 0
    ensures a >= 0 ==> q >= 0 && q * b <= a < (q + 1) * b
    ensures a < 0 ==> q <= 0 && -q * b <= -a < (-q + 1) * b
  {
    if a >= 0 then
      FloorBounds(a, b);
      a / b
    else
      FloorBounds(-a, b);
      -((-a) / b)
  }

  /** The quotient of natural numbers is the largest multiple not above. */
  lemma FloorBounds(a: nat, b: int)
    requires b > 0
    ensures a / b >= 0 && (a / b) * b <= a < (a / b + 1) * b
  {
    var q, r := a / b, a % b;
    assert a == q * b + r && 0 <= r < b;
    assert (q + 1) * b == q * b + b;
  }

  /** `int(downloaded / total * 100)` over exact arithmetic. */
  function Percent(downloaded: int, total: int): int
    requires total > 0
  {
    TruncDiv(100 * downloaded, total)
  }

  function UnitFor(speed: int): (u: SpeedUnit)
    ensures u == MegabytesPerSecond <==> speed >= 1048576
    ensures u == KilobytesPerSecond <==> 1024 <= speed < 1048576
    ensures u == BytesPerSecond <==> speed < 1024
  {
    if speed >= 1048576 then MegabytesPerSecond
    else if speed >= 1024 then KilobytesPerSecond
    else BytesPerSecond
  }

  function UnitRank(u: SpeedUnit): nat {
    match u
    case BytesPerSecond => 0
    case KilobytesPerSecond => 1
    case MegabytesPerSecond => 2
  }

  /** A faster download never shows a smaller unit. */
  lemma UnitMonotone(s1: int, s2: int)
    requires s1 <= s2
    ensures UnitRank(UnitFor(s1)) <= UnitRank(UnitFor(s2))
  {
  }

  /** `f"{q}m {x}s"`. */
  function MinutesText(q: int, x: int): string {
    IntToString(q) + "m " + IntToString(x) + "s"
  }

  /** The remaining-time text: minutes and seconds above one minute, otherwise
      plain seconds. */
  function EtaText(eta: int): (t: string)
    ensures |t| > 0 && t[|t| - 1] == 's'
  {
    if eta > 60 then MinutesText(eta / 60, eta % 60)
    else IntToString(eta) + "s"
  }

  /** Reads a remaining-time text back into seconds: `"<m>m <s>s"` or `"<s>s"`. */
  function ParseEta(text: string): Option<int> {
    if |text| == 0 || text[|text| - 1] != 's' then None
    else ParseEtaParts(Split(text[..|text| - 1], ' '))
  }

  function ParseEtaParts(parts: seq<string>): Option<int> {
    if |parts| == 1 then ParseNumeral(parts[0])
    else if |parts| == 2 && |parts[0]| > 0 && parts[0][|parts[0]| - 1] == 'm' then
      var m := ParseNumeral(parts[0][..|parts[0]| - 1]);
      var x := ParseNumeral(parts[1]);
      if m.Some? && x.Some? then Some(m.value * 60 + x.value) else None
    else None
  }

  lemma DropLast(b: string, c: char)
    ensures (b + [c])[..|b + [c]| - 1] == b
  {
  }

  lemma IntToStringHasNoSpace(i: int)
    ensures ' ' !in IntToString(i)
  {
  }

  lemma SplitOfSecondsText(x: int)
    ensures Split(IntToString(x), ' ') == [IntToString(x)]
  {
    IntToStringHasNoSpace(x);
    SplitWithoutSeparator(IntToString(x), ' ');
  }

  lemma SplitOfMinutesText(m: int, x: int)
    ensures Split(IntToString(m) + "m " + IntToString(x), ' ') == [IntToString(m) + "m", IntToString(x)]
  {
    var ms := IntToString(m) + "m";
    var ss := IntToString(x);
    assert IntToString(m) + "m " + ss == ms + [' '] + ss;
    IntToStringHasNoSpace(m);
    assert ' ' !in ms;
    SplitAround(ms, ss, ' ');
    SplitWithoutSeparator(ms, ' ');
    SplitOfSecondsText(x);
  }

  lemma EtaSecondsRoundTrip(eta: int)
    requires eta <= 60
    ensures ParseEta(EtaText(eta)) == Some(eta)
  {
    DropLast(IntToString(eta), 's');
    SplitOfSecondsText(eta);
    NumeralRoundTrip(eta);
  }

  lemma ParseMinutesParts(ps: seq<string>, m: int, x: int)
    requires |ps| == 2 && |ps[0]| > 0 && ps[0][|ps[0]| - 1] == 'm'
    requires ParseNumeral(ps[0][..|ps[0]| - 1]) == Some(m) && ParseNumeral(ps[1]) == Some(x)
    ensures ParseEtaParts(ps) == Some(m * 60 + x)
  {
  }

  /** A text ending in `s` is read by splitting what comes before it. */
  lemma ParseEtaOfBody(body: string)
    ensures ParseEta(body + ['s']) == ParseEtaParts(Split(body, ' '))
  {
    DropLast(body, 's');
  }

  lemma ParseMinutesText(m: int, x: int)
    ensures ParseEta(IntToString(m) + "m " + IntToString(x) + "s") == Some(m * 60 + x)
  {
    var ms, xs := IntToString(m), IntToString(x);
    var body := ms + "m " + xs;
    assert ms + "m " + xs + "s" == body + ['s'];
    ParseEtaOfBody(body);
    SplitOfMinutesText(m, x);
    var ms' := ms + "m";
    DropLast(ms, 'm');
    assert ms'[..|ms'| - 1] == ms;
    NumeralRoundTrip(m);
    NumeralRoundTrip(x);
    ParseMinutesParts([ms', xs], m, x);
  }

  lemma EtaMinutesRoundTrip(eta: int)
    requires eta > 60
    ensures ParseEta(EtaText(eta)) == Some(eta)
  {
    var m, x := eta / 60, eta % 60;
    assert m * 60 + x == eta;
    assert EtaText(eta) == IntToString(m) + "m " + IntToString(x) + "s";
    ParseMinutesText(m, x);
  }

  /** The remaining-time text always denotes the remaining seconds. It takes
      the minutes form exactly when more than a minute remains, and then its
      seconds part is below one minute. */
  lemma EtaTextRoundTrip(eta: int)
    ensures ParseEta(EtaText(eta)) == Some(eta)
    ensures eta > 60 <==> 'm' in EtaText(eta)
    ensures eta > 60 ==> exists q, x :: EtaText(eta) == MinutesText(q, x) && q * 60 + x == eta && 0 <= x < 60
  {
    if eta > 60 {
      EtaMinutesRoundTrip(eta);
      var q, x := eta / 60, eta % 60;
      assert q * 60 + x == eta;
      assert EtaText(eta) == MinutesText(q, x);
      assert 'm' in EtaText(eta) by {
        var k := |IntToString(q)|;
        assert EtaText(eta)[k] == 'm';
      }
    } else {
      EtaSecondsRoundTrip(eta);
      IntToStringHasNoLetterM(eta);
      assert EtaText(eta) == IntToString(eta) + "s";
    }
  }

  lemma IntToStringHasNoLetterM(i: int)
    ensures 'm' !in IntToString(i)
  {
  }

  /** The `downloading` branch once the prefix is known. */
  function DownloadingUpdate(total: Field, e: Event, prefix: string): (r: Result<Update, Exception>)
  {
    match total
    // `TotalSize` never yields `Absent`; the case reads like a size of 0.
    case Absent => Success(Update(0, Text(prefix + StartingText)))
    case Null => Failure(NoneOperand("total_bytes"))
    case Num(t) =>
      if t <= 0 then Success(Update(0, Text(prefix + StartingText)))
      else
        var downloaded := GetOrDefault(e.downloadedBytes, 0);
        var speed := GetOrDefault(e.speed, 0);
        var eta := GetOrDefault(e.eta, 0);
        if downloaded.Null? then Failure(NoneOperand("downloaded_bytes"))
        else if speed.Null? then Failure(NoneOperand("speed"))
        else if eta.Null? then Failure(NoneOperand("eta"))
        else
          var percent := Percent(downloaded.n, t);
          Success(Update(percent, InProgress(prefix, percent, downloaded.n, t, speed.n, UnitFor(speed.n), EtaText(eta.n))))
  }

  function ErrorMessageText(err: ErrorValue): string {
    match err
    case ErrorAbsent => UnknownError
    case ErrorText(s) => s
    case ErrorDict(code, message) =>
      "⚠️ Hata: " + code.GetOr(UnknownCode) + ", " + message.GetOr(NoDescription)
  }

  /** The `downloading` branch. */
  function DownloadingBody(e: Event): Result<Option<Update>, Exception> {
    var total := TotalSize(e);
    match InfoEntries(e.info)
    case Failure(x) => Failure(x)
    case Success(entries) =>
      var u :- DownloadingUpdate(total, e, PlaylistPrefix(entries.0, entries.1));
      Success(Some(u))
  }

  /** The `finished` branch; `d['info_dict']['playlist_autonumber']` subscripts
      the dictionary a second time. */
  function FinishedBody(e: Event): Result<Option<Update>, Exception> {
    match InfoEntries(e.info)
    case Failure(x) => Failure(x)
    case Success(entries) =>
      if !Truthy(entries.0) then Success(Some(Update(100, Text(AllFinishedText))))
      else if e.info.Info? && e.info.playlistAutonumber.Num? then
        Success(Some(Update(100, Text("✅ **[Video " + IntToString(e.info.playlistAutonumber.n) + "]** tamamlandı!"))))
      else Failure(KeyError("playlist_autonumber"))
  }

  /** The body of the `try`: `Success(None)` when nothing is emitted. */
  function HookBody(e: Event): (r: Result<Option<Update>, Exception>)
  {
    match e.status
    case Downloading => DownloadingBody(e)
    case Finished => FinishedBody(e)
    case ErrorStatus => Success(Some(Update(0, Text(ErrorMessageText(e.error)))))
    case OtherStatus => Success(None)
  }

  /** `_progress_hook`: the pair emitted on `progress_signal`, if any. */
  function ProgressHook(e: Event): (r: Option<Update>)
    ensures r.None? <==> e.status == OtherStatus
    ensures e.status == ErrorStatus ==> r == Some(Update(0, Text(ErrorMessageText(e.error))))
    ensures r.Some? && r.value.message.Fault? ==> r.value.percent == 0
    ensures r.Some? && r.value.message.InProgress? ==> r.value.percent == r.value.message.percent
    ensures e.status == Finished && r.Some? && r.value.message.Text? ==> r.value.percent == 100
  {
    match HookBody(e)
    case Success(u) => u
    case Failure(KeyError(k)) => Some(Update(0, Text(MissingDataHead + "'" + k + "'")))
    case Failure(x) => Some(Update(0, Fault(x)))
  }

  /** The `KeyError` handler is dead code: the second subscript only runs when
      the first lookup found a truthy number under the same key. */
  lemma NoMissingDataReport(e: Event)
    ensures !HookBody(e).Failure? || !HookBody(e).error.KeyError?
  {
  }

  /** Without a positive size (missing, zero or negative) the hook reports that
      the download is starting, at 0 percent. */
  lemma StartingWithoutSize(e: Event)
    requires e.status == Downloading && !e.info.InfoNull?
    requires TotalSize(e).Num? && TotalSize(e).n <= 0
    ensures ProgressHook(e).Some?
    ensures ProgressHook(e).value.percent == 0
    ensures ProgressHook(e).value.message.Text?
    ensures StartingText <= ProgressHook(e).value.message.text[|ProgressHook(e).value.message.text| - |StartingText|..]
    ensures var entries := InfoEntries(e.info).value;
      ProgressHook(e) == Some(Update(0, Text(PlaylistPrefix(entries.0, entries.1) + StartingText)))
  {
    var (a, n) := InfoEntries(e.info).value;
    var p := PlaylistPrefix(a, n);
    assert ProgressHook(e).value.message.text == p + StartingText;
  }

  /** While the downloaded count stays within the known size the bar is within
      [0, 100], and it is the largest whole percentage not above the exact one. */
  lemma PercentInRange(downloaded: int, total: int)
    requires 0 <= downloaded <= total && total > 0
    ensures 0 <= Percent(downloaded, total) <= 100
    ensures Percent(downloaded, total) * total <= 100 * downloaded < (Percent(downloaded, total) + 1) * total
  {
    var q := Percent(downloaded, total);
    assert q * total <= 100 * downloaded <= 100 * total;
    assert (q - 100) * total == q * total - 100 * total;
    if q > 100 {
      PositiveProduct(q - 100, total);
    }
  }

  lemma PositiveProduct(a: int, b: int)
    requires a > 0 && b > 0
    ensures a * b > 0
  {
  }

  /** A complete in-progress report: every entry present and numeric. */
  lemma ProgressReport(e: Event, d: int, t: int, s: int, eta: int)
    requires e.status == Downloading && !e.info.InfoNull?
    requires TotalSize(e) == Num(t) && t > 0
    requires e.downloadedBytes == Num(d) && e.speed == Num(s) && e.eta == Num(eta)
    ensures ProgressHook(e).Some?
    ensures ProgressHook(e).value.percent == Percent(d, t)
    ensures var entries := InfoEntries(e.info).value;
      ProgressHook(e).value.message
        == InProgress(PlaylistPrefix(entries.0, entries.1), Percent(d, t), d, t, s, UnitFor(s), EtaText(eta))
    ensures ProgressHook(e).value.message.unit == UnitFor(s)
    ensures ParseEta(ProgressHook(e).value.message.eta) == Some(eta)
    ensures eta > 60 <==> 'm' in ProgressHook(e).value.message.eta
    ensures 0 <= d <= t ==> 0 <= ProgressHook(e).value.percent <= 100
  {
    EtaTextRoundTrip(eta);
    if 0 <= d <= t {
      PercentInRange(d, t);
    }
  }

  /** The percentage is not clamped: a byte count above the reported size
      (an underestimated `total_bytes_estimate`) shows more than 100. */
  lemma PercentNotClamped()
    ensures ProgressHook(Event(Downloading, Absent, Num(100), Num(250), Num(0), Num(0), InfoAbsent, ErrorAbsent)).value.percent == 250
  {
  }

  /** A `None` value that reaches a comparison or a division is reported at 0
      percent instead of raising out of the hook. */
  lemma NoneSizeIsFault(e: Event)
    requires e.status == Downloading && !e.info.InfoNull?
    requires !Truthy(e.totalBytes) && e.totalBytesEstimate == Null
    ensures ProgressHook(e) == Some(Update(0, Fault(NoneOperand("total_bytes"))))
  {
  }

  /** With a positive size, the first `None` among the downloaded count, the
      speed and the eta (in the order the body reaches them: the division, the
      speed comparison, the eta comparison) is the one reported. */
  lemma NoneEntryIsFault(e: Event, t: int)
    requires e.status == Downloading && !e.info.InfoNull?
    requires TotalSize(e) == Num(t) && t > 0
    ensures e.downloadedBytes == Null ==>
      ProgressHook(e) == Some(Update(0, Fault(NoneOperand("downloaded_bytes"))))
    ensures e.downloadedBytes != Null && e.speed == Null ==>
      ProgressHook(e) == Some(Update(0, Fault(NoneOperand("speed"))))
    ensures e.downloadedBytes != Null && e.speed != Null && e.eta == Null ==>
      ProgressHook(e) == Some(Update(0, Fault(NoneOperand("eta"))))
  {
  }

  /** An `info_dict` entry holding `None` fails the `.get` on it in both the
      `downloading` and the `finished` branch, before anything is emitted. */
  lemma NoneInfoDictIsFault(e: Event)
    requires e.status == Downloading || e.status == Finished
    requires e.info.InfoNull?
    ensures ProgressHook(e) == Some(Update(0, Fault(NoneInfoDict)))
  {
  }

  /** Finished items report 100 percent, naming the playlist item when known. */
  lemma FinishedReport(e: Event)
    requires e.status == Finished && !e.info.InfoNull?
    ensures ProgressHook(e).Some? && ProgressHook(e).value.percent == 100
    ensures e.info.Info? && Truthy(e.info.playlistAutonumber) ==>
      ProgressHook(e).value.message == Text("✅ **[Video " + IntToString(e.info.playlistAutonumber.n) + "]** tamamlandı!")
    ensures !(e.info.Info? && Truthy(e.info.playlistAutonumber)) ==>
      ProgressHook(e).value.message == Text(AllFinishedText)
  {
  }

  /** Error reports fill in a fixed text for each missing part. */
  lemma ErrorReport(code: Option<string>, message: Option<string>)
    ensures ErrorMessageText(ErrorDict(code, message)) ==
      "⚠️ Hata: " + (if code.Some? then code.value else UnknownCode) + ", "
        + (if message.Some? then message.value else NoDescription)
    ensures ErrorMessageText(ErrorAbsent) == UnknownError
  {
  }
}
