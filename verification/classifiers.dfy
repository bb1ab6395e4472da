/** The small decisions of the main window: the quality labels offered for a
    video, the language code behind the saved language index, how the
    worker's final text and the updater's text are classified, and the guard
    that keeps a second download from starting while one runs. */
module Classifiers {
  import opened Wrappers
  import opened Text
  import DownloadOptions
  import Settings

  // ---------------------------------------------------------------------------
  // Quality labels

  /** One entry of yt-dlp's `formats` list: `vcodec` and `height` are `None`
      when the key is missing or holds `None`. */
  datatype Format = Format(vcodec: Option<string>, height: Option<int>)

  /** A format contributes its height when it carries video and a truthy
      height. */
  predicate Qualifies(f: Format) {
    f.vcodec != Some("none") && f.height.Some? && f.height.value != 0
  }

  /** The heights collected from the formats, in list order, repeats kept. */
  function Heights(formats: seq<Format>): (hs: seq<int>)
    ensures forall h :: h in hs <==> exists i :: 0 <= i < |formats| && Qualifies(formats[i]) && formats[i].height.value == h
    decreases |formats|
  {
    if |formats| == 0 then []
    else
      var rest := Heights(formats[1..]);
      assert forall i :: 1 <= i < |formats| ==> formats[i] == formats[1..][i - 1];
      assert forall i :: 0 <= i < |formats| - 1 ==> formats[1..][i] == formats[i + 1];
      (if Qualifies(formats[0]) then [formats[0].height.value] else []) + rest
  }

  predicate StrictlyDescending(s: seq<int>) {
    forall i, j :: 0 <= i < j < |s| ==> s[i] > s[j]
  }

  /** Adds `x` to a strictly descending list unless it is already there. */
  function InsertDescending(x: int, s: seq<int>): (r: seq<int>)
    requires StrictlyDescending(s)
    ensures StrictlyDescending(r)
    ensures forall y :: y in r <==> y == x || y in s
    decreases |s|
  {
    if |s| == 0 then [x]
    else if x > s[0] then [x] + s
    else if x == s[0] then s
    else
      var rest := InsertDescending(x, s[1..]);
      assert forall y :: y in rest ==> y < s[0];
      assert forall j :: 0 <= j < |rest| ==> rest[j] in rest;
      [s[0]] + rest
  }

  /** `sorted(set(xs), reverse=True)`. */
  function SortedDistinctDescending(xs: seq<int>): (r: seq<int>)
    ensures StrictlyDescending(r)
    ensures forall y :: y in r <==> y in xs
    decreases |xs|
  {
    if |xs| == 0 then []
    else InsertDescending(xs[|xs| - 1], SortedDistinctDescending(xs[..|xs| - 1]))
  }

  /** Two strictly descending lists with the same elements are the same list:
      the order of the labels is fully determined by the set of heights. */
  lemma {:induction false} StrictlyDescendingUnique(a: seq<int>, b: seq<int>)
    requires StrictlyDescending(a) && StrictlyDescending(b)
    requires forall y :: y in a <==> y in b
    ensures a == b
    decreases |a|
  {
    assert |a| > 0 ==> a[0] in a;
    assert |b| > 0 ==> b[0] in b;
    if |a| > 0 && |b| > 0 {
      assert forall j :: 0 < j < |b| ==> b[0] > b[j];
      assert forall j :: 0 < j < |a| ==> a[0] > a[j];
      assert a[0] in b && b[0] in a;
      assert a[0] == b[0];
      assert a == [a[0]] + a[1..] && b == [b[0]] + b[1..];
      forall y
        ensures y in a[1..] <==> y in b[1..]
      {
        if y in a[1..] {
          var k :| 0 <= k < |a[1..]| && a[1..][k] == y;
          assert a[k + 1] == y && a[0] > a[k + 1];
          assert y in b && y != b[0];
          assert y in b[1..];
        }
        if y in b[1..] {
          var k :| 0 <= k < |b[1..]| && b[1..][k] == y;
          assert b[k + 1] == y && b[0] > b[k + 1];
          assert y in a && y != a[0];
          assert y in a[1..];
        }
      }
      StrictlyDescendingUnique(a[1..], b[1..]);
    }
  }

  /** The label of one height: the fixed names of `quality_map`, `(UHD)` above
      8K, the bare `<h>p` otherwise. */
  function HeightLabel(h: int): string {
    if h == 4320 then "4320p (8K)"
    else if h == 2160 then "2160p (4K)"
    else if h == 1440 then "1440p"
    else if h == 1080 then "1080p"
    else if h == 720 then "720p"
    else if h == 480 then "480p"
    else if h == 360 then "360p"
    else if h == 240 then "240p"
    else if h == 144 then "144p"
    else if h > 4320 then IntToString(h) + "p (UHD)"
    else IntToString(h) + "p"
  }

  /** What follows the number in a height label. */
  function LabelSuffix(h: int): string {
    if h == 4320 then "p (8K)"
    else if h == 2160 then "p (4K)"
    else if h > 4320 then "p (UHD)"
    else "p"
  }

  /** Every label, fixed or generated, is the height's decimal text followed by
      a suffix that starts with `p`: the fixed names agree with the generic
      form. */
  lemma HeightLabelShape(h: int)
    ensures HeightLabel(h) == IntToString(h) + LabelSuffix(h)
  {
    if h == 4320 || h == 2160 || h == 1440 || h == 1080 {
      FixedFourDigitLabels();
    } else if h == 720 || h == 480 || h == 360 || h == 240 || h == 144 {
      FixedThreeDigitLabels();
    }
  }

  lemma FixedFourDigitLabels()
    ensures forall h :: h in {4320, 2160, 1440, 1080} ==> HeightLabel(h) == IntToString(h) + LabelSuffix(h)
  {
    FourDigitHeights();
  }

  lemma FixedThreeDigitLabels()
    ensures forall h :: h in {720, 480, 360, 240, 144} ==> HeightLabel(h) == IntToString(h) + LabelSuffix(h)
  {
    ThreeDigitHeights();
  }

  lemma FourDigitHeights()
    ensures NatToString(4320) == "4320" && NatToString(2160) == "2160"
    ensures NatToString(1440) == "1440" && NatToString(1080) == "1080"
  {
    HighHeights();
    AppendDigit(1, 4); AppendDigit(14, 4); AppendDigit(144, 0);
    AppendDigit(1, 0); AppendDigit(10, 8); AppendDigit(108, 0);
  }

  lemma HighHeights()
    ensures NatToString(4320) == "4320" && NatToString(2160) == "2160"
  {
    AppendDigit(4, 3); AppendDigit(43, 2); AppendDigit(432, 0);
    AppendDigit(2, 1); AppendDigit(21, 6); AppendDigit(216, 0);
  }

  lemma ThreeDigitHeights()
    ensures NatToString(720) == "720" && NatToString(480) == "480" && NatToString(360) == "360"
    ensures NatToString(240) == "240" && NatToString(144) == "144"
  {
    AppendDigit(7, 2); AppendDigit(72, 0);
    AppendDigit(4, 8); AppendDigit(48, 0);
    AppendDigit(3, 6); AppendDigit(36, 0);
    AppendDigit(2, 4); AppendDigit(24, 0);
    AppendDigit(1, 4); AppendDigit(14, 4);
  }

  /** `str(10 * n + d)` appends the digit `d` to `str(n)`. */
  lemma AppendDigit(n: nat, d: nat)
    requires n > 0 && d < 10
    ensures NatToString(10 * n + d) == NatToString(n) + [DigitChar(d)]
  {
  }

  /** Choosing the label of a positive height downloads at most that height:
      `get_yt_dlp_format` reads the number back out of the label. */
  lemma HeightLabelCapsAtHeight(h: int)
    requires h > 0
    ensures DownloadOptions.HeightCappedFormat(HeightLabel(h)) == DownloadOptions.CappedSelector(NatToString(h))
  {
    HeightLabelShape(h);
    DownloadOptions.HeightCapIsLeadingRun(NatToString(h), LabelSuffix(h));
  }

  /** Distinct heights get distinct labels. */
  lemma HeightLabelInjective(h1: int, h2: int)
    requires HeightLabel(h1) == HeightLabel(h2)
    ensures h1 == h2
  {
    HeightLabelShape(h1);
    HeightLabelShape(h2);
    var s1, s2 := IntToString(h1), IntToString(h2);
    LeadingNumberOf(h1);
    LeadingNumberOf(h2);
    ParseIntRoundTrip(h1);
    ParseIntRoundTrip(h2);
  }

  /** The number at the front of a label: an optional `-` and the digits up to
      the first non-digit. */
  function LabelNumber(text: string): string {
    if |text| > 0 && text[0] == '-' then "-" + LeadingDigits(text[1..]) else LeadingDigits(text)
  }

  lemma LeadingNumberOf(h: int)
    ensures LabelNumber(HeightLabel(h)) == IntToString(h)
  {
    HeightLabelShape(h);
    var suffix := LabelSuffix(h);
    assert suffix[0] == 'p';
    if h < 0 {
      var digits := NatToString(-h);
      assert HeightLabel(h)[1..] == digits + suffix;
      LeadingDigitsOf(digits, suffix);
    } else {
      LeadingDigitsOf(NatToString(h), suffix);
    }
  }

  const NoQualities := ["N/A"]

  /** The `quality_list` of the video-info step: labels of the distinct heights,
      highest first, for YouTube only; `["N/A"]` when there are none. */
  function QualityLabels(isYoutube: bool, formats: seq<Format>): (labels: seq<string>)
    ensures |labels| >= 1
  {
    var heights := if isYoutube then SortedDistinctDescending(Heights(formats)) else [];
    if |heights| == 0 then NoQualities
    else seq(|heights|, i requires 0 <= i < |heights| => HeightLabel(heights[i]))
  }

  /** `N/A` is offered exactly when no height was collected. */
  lemma NoQualitiesIffNoHeights(isYoutube: bool, formats: seq<Format>)
    ensures QualityLabels(isYoutube, formats) == NoQualities <==>
      !isYoutube || forall i :: 0 <= i < |formats| ==> !Qualifies(formats[i])
  {
    var labels := QualityLabels(isYoutube, formats);
    var heights := if isYoutube then SortedDistinctDescending(Heights(formats)) else [];
    if |heights| > 0 {
      assert heights[0] in Heights(formats);
      var first := HeightLabel(heights[0]);
      HeightLabelShape(heights[0]);
      assert first[|first| - 1] in "p)";
      assert labels[0] == first;
      assert labels != NoQualities;
    }
    assert forall i :: 0 <= i < |formats| && Qualifies(formats[i]) ==> formats[i].height.value in Heights(formats);
  }

  /** Every collected height is offered. */
  lemma EveryHeightOffered(formats: seq<Format>, i: nat)
    requires i < |formats| && Qualifies(formats[i])
    ensures HeightLabel(formats[i].height.value) in QualityLabels(true, formats)
  {
    var labels := QualityLabels(true, formats);
    var heights := SortedDistinctDescending(Heights(formats));
    var h := formats[i].height.value;
    assert h in heights;
    var k :| 0 <= k < |heights| && heights[k] == h;
    assert labels[k] == HeightLabel(h);
  }

  /** For YouTube the labels are those of the collected heights listed highest
      first, one per distinct height: `hs` is any strictly descending list of
      exactly the collected heights. */
  lemma QualityLabelsFollowHeights(formats: seq<Format>, hs: seq<int>)
    requires |hs| > 0 && StrictlyDescending(hs)
    requires forall h :: h in hs <==> h in Heights(formats)
    ensures var labels := QualityLabels(true, formats);
      |labels| == |hs| && forall i :: 0 <= i < |hs| ==> labels[i] == HeightLabel(hs[i])
  {
    StrictlyDescendingUnique(SortedDistinctDescending(Heights(formats)), hs);
  }

  /** Every label other than the `N/A` fallback names a height some video
      format carries. */
  lemma OfferedLabelsAreCollected(isYoutube: bool, formats: seq<Format>, k: nat)
    requires QualityLabels(isYoutube, formats) != NoQualities
    requires k < |QualityLabels(isYoutube, formats)|
    ensures exists i :: 0 <= i < |formats| && Qualifies(formats[i])
              && QualityLabels(isYoutube, formats)[k] == HeightLabel(formats[i].height.value)
  {
    var heights := SortedDistinctDescending(Heights(formats));
    assert heights[k] in Heights(formats);
  }

  /** Each label is offered once, and so is the number it starts with. */
  lemma QualityLabelsDistinct(isYoutube: bool, formats: seq<Format>)
    requires QualityLabels(isYoutube, formats) != NoQualities
    ensures var labels := QualityLabels(isYoutube, formats);
      forall i, j :: 0 <= i < j < |labels| ==> labels[i] != labels[j]
    ensures var labels := QualityLabels(isYoutube, formats);
      forall i, j :: 0 <= i < j < |labels| ==> LabelNumber(labels[i]) != LabelNumber(labels[j])
  {
    var labels := QualityLabels(isYoutube, formats);
    var heights := if isYoutube then SortedDistinctDescending(Heights(formats)) else [];
    forall i, j | 0 <= i < j < |labels|
      ensures labels[i] != labels[j] && LabelNumber(labels[i]) != LabelNumber(labels[j])
    {
      LeadingNumberOf(heights[i]);
      LeadingNumberOf(heights[j]);
      ParseIntRoundTrip(heights[i]);
      ParseIntRoundTrip(heights[j]);
    }
  }

  /** The fallback entry selects the default 720p cap. */
  lemma NoQualitiesCapsAt720()
    ensures DownloadOptions.HeightCappedFormat(NoQualities[0]) == DownloadOptions.CappedSelector("720")
  {
  }

  // ---------------------------------------------------------------------------
  // Language code

  /** The language names indexed by the saved setting; index 0 is unused. */
  const LanguageNames: seq<string> :=
    ["", "türkçe", "english", "español", "deutsch", "français", "italiano", "português", "русский", "عربي", "中文"]

  const CodeOfName: map<string, string> := map[
    "türkçe" := "tr", "english" := "en", "español" := "es", "deutsch" := "de",
    "français" := "fr", "italiano" := "it", "português" := "pt", "русский" := "ru",
    "عربي" := "ar", "中文" := "zh"]

  /** The codes in the order of the settings dialog's language box. */
  const ComboCodes: seq<string> := ["tr", "en", "es", "de", "fr", "it", "pt", "ru", "ar", "zh"]

  const DefaultLanguage := "tr"

  /** Python list indexing: negative indexes count from the end. */
  function PyIndex<T>(xs: seq<T>, i: int): Option<T> {
    if 0 <= i < |xs| then Some(xs[i])
    else if -|xs| <= i < 0 then Some(xs[|xs| + i])
    else None
  }

  /** `get_current_language_code` given the saved `language_index`: an index
      outside the list, or a name without a code, yields `tr`. */
  function LanguageCode(index: int): (code: string)
    ensures code == DefaultLanguage || code in ComboCodes
  {
    match PyIndex(LanguageNames, index)
    case None => DefaultLanguage
    case Some(name) =>
      var key := Lower(name);
      if key in CodeOfName then
        assert CodeOfName[key] in ComboCodes;
        CodeOfName[key]
      else DefaultLanguage
  }

  lemma LowerWithoutCapitals(s: string)
    requires forall i :: 0 <= i < |s| ==> !('A' <= s[i] <= 'Z')
    ensures Lower(s) == s
  {
  }

  /** `get_current_language_code` reading the index from the settings store. */
  function CurrentLanguageCode(store: Settings.Store): (code: string)
    ensures code == DefaultLanguage || code in ComboCodes
    ensures Settings.LanguageIndexKey in store && Settings.ToInt(store[Settings.LanguageIndexKey]).Some? ==>
      code == LanguageCode(Settings.ToInt(store[Settings.LanguageIndexKey]).value)
    ensures Settings.LanguageIndexKey !in store || Settings.ToInt(store[Settings.LanguageIndexKey]).None? ==>
      code == DefaultLanguage
  {
    var index := Settings.GetSetting(store, Settings.LanguageIndexKey).value;
    LanguageCodeOfIndex(1);
    LanguageCode(index.i)
  }

  /** The combo-box position the settings dialog restores from a saved index. */
  function RestoredComboIndex(saved: int): (c: int)
    ensures saved > 0 ==> c == saved - 1
    ensures saved <= 0 ==> c == 0
  {
    if saved > 0 then saved - 1 else 0
  }

  /** `apply_language_change`: the index saved for a combo-box position. */
  function SaveLanguage(store: Settings.Store, combo: int): Settings.Store {
    Settings.SaveSetting(store, Settings.LanguageIndexKey, Some(Settings.Int(combo + 1)))
  }

  /** Picking the `c`-th language in the settings dialog makes the window use
      that language's code, and reopening the dialog shows the same entry. */
  lemma ComboRoundTrip(store: Settings.Store, c: int)
    requires 0 <= c < |ComboCodes|
    ensures CurrentLanguageCode(SaveLanguage(store, c)) == ComboCodes[c]
    ensures RestoredComboIndex(Settings.GetSetting(SaveLanguage(store, c), Settings.LanguageIndexKey).value.i) == c
  {
    Settings.SaveThenGet(store, Settings.LanguageIndexKey, Settings.Int(c + 1), Settings.DownloadFolderKey);
    ComboLanguageCode(c);
  }

  /** The saved index `c + 1` names the `c`-th language of the dialog's box. */
  lemma ComboLanguageCode(c: int)
    requires 0 <= c < |ComboCodes|
    ensures LanguageCode(c + 1) == ComboCodes[c]
  {
    var name := LanguageNames[c + 1];
    LowerWithoutCapitals(name);
    assert CodeOfName[name] == ComboCodes[c] by {
      if c < 5 {
        assert c == 0 || c == 1 || c == 2 || c == 3 || c == 4;
      } else {
        assert c == 5 || c == 6 || c == 7 || c == 8 || c == 9;
      }
    }
  }

  /** A fresh installation runs in Turkish. */
  lemma FreshInstallIsTurkish()
    ensures CurrentLanguageCode(map[]) == "tr"
  {
    Settings.UnsavedReadsDefault(map[], Settings.LanguageIndexKey);
    LowerWithoutCapitals(LanguageNames[1]);
  }

  /** The code for every saved index: the ten languages at 1 to 10; Turkish
      for the unused index 0 and for any index outside the list; a negative
      index inside the list counts from its end. */
  lemma LanguageCodeOfIndex(i: int)
    ensures i == 0 || i >= |LanguageNames| || i < -|LanguageNames| ==> LanguageCode(i) == DefaultLanguage
    ensures 1 <= i < |LanguageNames| ==> LanguageCode(i) == ComboCodes[i - 1]
    ensures -|LanguageNames| <= i < 0 ==> LanguageCode(i) == LanguageCode(|LanguageNames| + i)
  {
    if 1 <= i < |LanguageNames| {
      ComboLanguageCode(i - 1);
    } else if i == 0 || i == -|LanguageNames| {
      assert Lower("") == "";
    }
  }

  // ---------------------------------------------------------------------------
  // Classifying the worker's final text

  datatype Verdict = SuccessVerdict | ErrorVerdict | InfoVerdict

  const CheckMark: char := '✅'
  const CrossMark: char := '❌'

  predicate HasSuccessMark(s: string) {
    CheckMark in s || Contains(Lower(s), "completed") || Contains(Lower(s), "tamamlandı")
  }

  predicate HasErrorMark(s: string) {
    CrossMark in s || Contains(Lower(s), "error") || Contains(Lower(s), "hata")
  }

  /** `download_finished`: success markers are tested before error markers. */
  function ClassifyFinished(status: string): (v: Verdict)
    ensures v == SuccessVerdict <==> HasSuccessMark(status)
    ensures v == ErrorVerdict <==> !HasSuccessMark(status) && HasErrorMark(status)
  {
    if HasSuccessMark(status) then SuccessVerdict
    else if HasErrorMark(status) then ErrorVerdict
    else InfoVerdict
  }

  /** A completed download is always reported as a success. */
  lemma CompletedIsSuccess(base: string, traceback: string)
    ensures ClassifyFinished(DownloadOptions.FinishedMessage(DownloadOptions.Completed(base), traceback)) == SuccessVerdict
  {
    var m := DownloadOptions.FinishedMessage(DownloadOptions.Completed(base), traceback);
    assert m[0] == CheckMark;
  }

  const LoweredFailureHead := "hata oluştu: "

  lemma {:induction false} SuccessMarkAfterFailureHead(rest: string)
    ensures HasSuccessMark(DownloadOptions.FailureHead + rest) <==> HasSuccessMark(rest)
  {
    var head := DownloadOptions.FailureHead;
    LowerConcat(head, rest);
    FailureHeadFacts();
    var lh, lr := LoweredFailureHead, Lower(rest);
    assert CheckMark in head + rest <==> CheckMark in rest;
    KeywordAfterHead(lh, lr, "completed", 'c');
    KeywordAfterHead(lh, lr, "tamamlandı", 'm');
  }

  /** The failure head, lowered, holds neither success keyword's letters `c`
      and `m`, and ends in a space, which neither keyword contains. */
  lemma FailureHeadFacts()
    ensures Lower(DownloadOptions.FailureHead) == LoweredFailureHead
    ensures CheckMark !in DownloadOptions.FailureHead
    ensures |LoweredFailureHead| > 0 && LoweredFailureHead[|LoweredFailureHead| - 1] == ' '
    ensures ' ' !in "completed" && ' ' !in "tamamlandı" && 'c' in "completed" && 'm' in "tamamlandı"
    ensures 'c' !in LoweredFailureHead && 'm' !in LoweredFailureHead
    ensures "hata" <= LoweredFailureHead
  {
    LowerFailureHead();
    LoweredHeadLacks('c');
    LoweredHeadLacks('m');
  }

  lemma LowerFailureHead()
    ensures Lower(DownloadOptions.FailureHead) == LoweredFailureHead
  {
  }

  lemma LoweredHeadLacks(x: char)
    requires x == 'c' || x == 'm'
    ensures x !in LoweredFailureHead
  {
    var h := LoweredFailureHead;
    forall i | 0 <= i < |h|
      ensures h[i] != x
    {
    }
  }

  /** A keyword that cannot occur in the head, nor straddle its final space,
      occurs in `head + rest` exactly when it occurs in `rest`. */
  lemma KeywordAfterHead(head: string, rest: string, k: string, x: char)
    requires |head| > 0 && head[|head| - 1] !in k
    requires x in k && x !in head
    ensures Contains(head + rest, k) <==> Contains(rest, k)
  {
    MissingElementNotContained(head, k, x);
    if Contains(head + rest, k) {
      ContainsSplitsAt(head, rest, k);
    }
    if Contains(rest, k) {
      ContainsInRight(head, rest, k);
    }
  }

  /** A failed download is reported as an error, unless the exception text or
      the traceback itself carries a success marker, in which case it is shown
      as a success. */
  lemma FailedIsError(detail: string, traceback: string)
    ensures var rest := detail + "\n" + traceback;
      ClassifyFinished(DownloadOptions.FinishedMessage(DownloadOptions.Failed(detail), traceback))
        == if HasSuccessMark(rest) then SuccessVerdict else ErrorVerdict
  {
    var rest := detail + "\n" + traceback;
    var m := DownloadOptions.FinishedMessage(DownloadOptions.Failed(detail), traceback);
    assert m == DownloadOptions.FailureHead + rest;
    SuccessMarkAfterFailureHead(rest);
    LowerConcat(DownloadOptions.FailureHead, rest);
    FailureHeadFacts();
    assert Lower(m) == LoweredFailureHead + Lower(rest);
    assert "hata" <= Lower(m);
  }

  // ---------------------------------------------------------------------------
  // The updater's text

  /** What `subprocess.run` of `yt_dlp -U` gave back, or the text of the
      exception it raised. */
  datatype UpdateRun = Ran(returnCode: int, stdout: string, stderr: string) | CouldNotRun(error: string)

  const UnknownFailureHead := "Bilinmeyen bir hata oluştu (Kod: "
  const CouldNotRunHead := "Güncelleme işlemi çalıştırılamadı: "

  /** `UpdateThread.run`: the stripped output, falling back to the other stream
      on success and to a fixed text carrying the exit code on failure. */
  function UpdateMessage(run: UpdateRun): (m: string)
    ensures run.Ran? && run.returnCode == 0 && |Strip(run.stdout)| > 0 ==> m == Strip(run.stdout)
    ensures run.Ran? && run.returnCode == 0 && |Strip(run.stdout)| == 0 ==> m == Strip(run.stderr)
    ensures run.Ran? && run.returnCode != 0 && |Strip(run.stderr)| > 0 ==> m == Strip(run.stderr)
    ensures run.Ran? && run.returnCode != 0 && |Strip(run.stderr)| == 0 ==>
      && UnknownFailureHead <= m && |m| > |UnknownFailureHead| && m[|m| - 1] == ')'
      && ParseInt(m[|UnknownFailureHead|..|m| - 1]) == Some(run.returnCode)
    ensures run.CouldNotRun? ==> CouldNotRunHead <= m && m[|CouldNotRunHead|..] == run.error
  {
    match run
    case Ran(rc, out, err) =>
      if rc == 0 then
        var m := Strip(out);
        if |m| == 0 then Strip(err) else m
      else
        var m := Strip(err);
        if |m| == 0 then
          ExitCodeText(rc);
          UnknownFailureHead + IntToString(rc) + ")"
        else m
    case CouldNotRun(e) => CouldNotRunHead + e
  }

  /** The exit-code text reads back as the exit code. */
  lemma ExitCodeText(rc: int)
    ensures var m := UnknownFailureHead + IntToString(rc) + ")";
      && UnknownFailureHead <= m && |m| > |UnknownFailureHead| && m[|m| - 1] == ')'
      && ParseInt(m[|UnknownFailureHead|..|m| - 1]) == Some(rc)
  {
    NumberBetween(UnknownFailureHead, IntToString(rc), ")");
    ParseIntRoundTrip(rc);
  }

  lemma NumberBetween(head: string, number: string, tail: string)
    requires |tail| == 1
    ensures var m := head + number + tail;
      && head <= m && |m| > |head| && m[|m| - 1] == tail[0]
      && m[|head|..|m| - 1] == number
  {
    var m := head + number + tail;
    assert m[..|head|] == head;
  }

  datatype UpdateVerdict = AlreadyUpToDate | Updated | UpdateFailed

  /** `show_update_result`. */
  function ClassifyUpdate(message: string): (v: UpdateVerdict)
    ensures v == AlreadyUpToDate <==> Contains(Lower(message), "already up-to-date")
    ensures v == Updated <==>
      (!Contains(Lower(message), "already up-to-date")
       && (Contains(Lower(message), "updated") || Contains(Lower(message), "successfully")))
  {
    var m := Lower(message);
    if Contains(m, "already up-to-date") then AlreadyUpToDate
    else if Contains(m, "updated") || Contains(m, "successfully") then Updated
    else UpdateFailed
  }

  /** A character absent from `s` in both cases is absent from `Lower(s)`. */
  lemma LowerAvoids(s: string, lower: char, upper: char)
    requires 'a' <= lower <= 'z' && upper as int == lower as int - 32
    requires lower !in s && upper !in s
    ensures lower !in Lower(s)
  {
    forall i | 0 <= i < |s|
      ensures Lower(s)[i] != lower
    {
      assert s[i] != lower && s[i] != upper;
    }
  }

  /** The exit-code text has no `p` and no `c` in either case. */
  lemma FallbackLetters(rc: int)
    ensures var m := UnknownFailureHead + IntToString(rc) + ")";
      'p' !in m && 'P' !in m && 'c' !in m && 'C' !in m
  {
    var digits := IntToString(rc);
    HeadLetters();
    assert 'p' !in digits && 'P' !in digits && 'c' !in digits && 'C' !in digits;
    var m := UnknownFailureHead + digits + ")";
    assert forall ch :: ch in m ==> ch in UnknownFailureHead || ch in digits || ch == ')';
  }

  lemma HeadLetters()
    ensures 'p' !in UnknownFailureHead && 'P' !in UnknownFailureHead
    ensures 'c' !in UnknownFailureHead && 'C' !in UnknownFailureHead
  {
    HeadLacks('p');
    HeadLacks('P');
    HeadLacks('c');
    HeadLacks('C');
  }

  lemma HeadLacks(x: char)
    requires x == 'p' || x == 'P' || x == 'c' || x == 'C'
    ensures x !in UnknownFailureHead
  {
    var h := UnknownFailureHead;
    forall i | 0 <= i < |h|
      ensures h[i] != x
    {
    }
  }

  /** A failed update with nothing on standard error is shown as an error. */
  lemma SilentFailureIsError(rc: int, stdout: string, stderr: string)
    requires rc != 0 && |Strip(stderr)| == 0
    ensures ClassifyUpdate(UpdateMessage(Ran(rc, stdout, stderr))) == UpdateFailed
  {
    var m := UpdateMessage(Ran(rc, stdout, stderr));
    assert m == UnknownFailureHead + IntToString(rc) + ")";
    FallbackLetters(rc);
    LowerAvoids(m, 'p', 'P');
    LowerAvoids(m, 'c', 'C');
    MissingElementNotContained(Lower(m), "already up-to-date", 'p');
    MissingElementNotContained(Lower(m), "updated", 'p');
    MissingElementNotContained(Lower(m), "successfully", 'c');
  }

  // ---------------------------------------------------------------------------
  // Single active download

  /** The running flag of every download worker the window has created, oldest
      first; `download_thread` is the newest. */
  datatype Window = Window(workers: seq<bool>)

  /** `hasattr(self, 'download_thread') and self.download_thread.isRunning()`. */
  predicate Busy(w: Window) {
    |w.workers| > 0 && w.workers[|w.workers| - 1]
  }

  datatype Action =
    | StartPressed(urlGiven: bool)
    | WorkerFinished(worker: nat)
    | CancelPressed

  datatype StartOutcome = AlreadyRunning | MissingUrl | Started

  /** `start_download`'s decision: the running check comes before the URL check. */
  function StartDecision(w: Window, urlGiven: bool): (o: StartOutcome)
    ensures o == Started <==> !Busy(w) && urlGiven
    ensures o == AlreadyRunning <==> Busy(w)
  {
    if Busy(w) then AlreadyRunning
    else if !urlGiven then MissingUrl
    else Started
  }

  /** One press or worker end: a start appends a running worker only when
      none runs and a URL is given; a cancel stops the newest worker; a
      finish stops the worker that ended. No worker is ever dropped. */
  function Step(w: Window, a: Action): (r: Window)
    ensures a.StartPressed? && Busy(w) ==> r == w
    ensures a.StartPressed? && !Busy(w) && !a.urlGiven ==> r == w
    ensures a.StartPressed? && !Busy(w) && a.urlGiven ==> r == Window(w.workers + [true])
    ensures !a.StartPressed? ==> |r.workers| == |w.workers|
    ensures a.CancelPressed? ==> !Busy(r)
    ensures a.CancelPressed? ==> forall i :: 0 <= i < |w.workers| - 1 ==> r.workers[i] == w.workers[i]
    ensures a.WorkerFinished? && a.worker < |w.workers| ==> r.workers == w.workers[a.worker := false]
    ensures a.WorkerFinished? && a.worker >= |w.workers| ==> r == w
  {
    match a
    case StartPressed(u) =>
      if StartDecision(w, u) == Started then Window(w.workers + [true]) else w
    case WorkerFinished(i) =>
      if i < |w.workers| then Window(w.workers[i := false]) else w
    case CancelPressed =>
      // `terminate()` followed by `wait()` on the newest worker.
      if Busy(w) then Window(w.workers[|w.workers| - 1 := false]) else w
  }

  function Run(w: Window, actions: seq<Action>): Window
    decreases |actions|
  {
    if |actions| == 0 then w else Run(Step(w, actions[0]), actions[1..])
  }

  /** Only the newest worker can be running. */
  predicate OnlyNewestRuns(w: Window) {
    forall i :: 0 <= i < |w.workers| - 1 ==> !w.workers[i]
  }

  function RunningCount(flags: seq<bool>): nat
    decreases |flags|
  {
    if |flags| == 0 then 0 else (if flags[0] then 1 else 0) + RunningCount(flags[1..])
  }

  lemma StepKeepsOnlyNewest(w: Window, a: Action)
    requires OnlyNewestRuns(w)
    ensures OnlyNewestRuns(Step(w, a))
  {
  }

  lemma {:induction false} NoneRunning(flags: seq<bool>)
    requires forall i :: 0 <= i < |flags| ==> !flags[i]
    ensures RunningCount(flags) == 0
    decreases |flags|
  {
    if |flags| > 0 {
      NoneRunning(flags[1..]);
    }
  }

  lemma {:induction false} OnlyLastRunning(flags: seq<bool>)
    requires forall i :: 0 <= i < |flags| - 1 ==> !flags[i]
    ensures RunningCount(flags) <= 1
    decreases |flags|
  {
    if |flags| > 1 {
      OnlyLastRunning(flags[1..]);
      assert !flags[0];
    } else if |flags| == 1 {
      NoneRunning(flags[1..]);
    }
  }

  /** `cancel_download` terminates and waits for the newest worker, so once
      only the newest could run, nothing runs afterwards. */
  lemma CancelStopsDownload(w: Window)
    requires OnlyNewestRuns(w)
    ensures !Busy(Step(w, CancelPressed))
    ensures RunningCount(Step(w, CancelPressed).workers) == 0
  {
    var flags := Step(w, CancelPressed).workers;
    assert forall i :: 0 <= i < |flags| ==> !flags[i];
    NoneRunning(flags);
  }

  /** However the buttons are pressed and the workers end, at most one
      download runs at a time. */
  lemma {:induction false} AtMostOneDownload(w: Window, actions: seq<Action>)
    requires OnlyNewestRuns(w)
    ensures OnlyNewestRuns(Run(w, actions))
    ensures RunningCount(Run(w, actions).workers) <= 1
    decreases |actions|
  {
    if |actions| == 0 {
      OnlyLastRunning(w.workers);
    } else {
      StepKeepsOnlyNewest(w, actions[0]);
      AtMostOneDownload(Step(w, actions[0]), actions[1..]);
    }
  }
}
