/** The pure decisions of the FFmpeg installer: which release asset to fetch
    (`get_latest_ffmpeg_url`), which zip entries land in the `bin` folder
    (`FFmpegDownloadThread.run`), and how the user's `PATH` registry value is
    rewritten (`FFmpegDownloadThread.add_to_path`). The HTTP request, the zip
    archive and the Windows registry are inputs and outputs of these
    functions. */
module Installer {
  import opened Wrappers
  import opened Text

  // ---------------------------------------------------------------------------
  // Release asset choice

  const FallbackFfmpegUrl := "https://www.gyan.dev/ffmpeg/builds/ffmpeg-release-essentials.zip"
  const WantedSuffix := "win64-gpl.zip"
  const SharedMarker := "shared"

  /** A JSON value read through `dict.get`: the key is missing, holds `null`,
      or holds a value of the expected type. */
  datatype Entry<T> = Missing | JsonNull | Value(v: T)

  /** One element of the release's `assets` array. */
  datatype Asset = Asset(name: Entry<string>, downloadUrl: Entry<string>)

  /** The GitHub reply: the request raised, or a status code with a body that
      is either not a JSON object or an object with an `assets` entry. */
  datatype ReleaseReply =
    | RequestFailed
    | Reply(status: int, body: Option<Entry<seq<Asset>>>)

  predicate IsWantedName(name: string) {
    Contains(Lower(name), WantedSuffix) && !Contains(Lower(name), SharedMarker)
  }

  /** The name an asset is tested with: a missing name reads as `''`; a `null`
      one makes `.lower()` raise. */
  function AssetName(a: Asset): Option<string> {
    match a.name
    case Missing => Some("")
    case JsonNull => None
    case Value(n) => Some(n)
  }

  predicate IsWanted(a: Asset) {
    AssetName(a).Some? && IsWantedName(AssetName(a).value)
  }

  /** `asset['browser_download_url']` once the key is known to be present:
      `None` for a JSON `null`. */
  function Link(a: Asset): Option<string>
    requires !a.downloadUrl.Missing?
  {
    if a.downloadUrl.Value? then Some(a.downloadUrl.v) else None
  }

  /** The outcome of the loop when it does not raise: the link read from the
      first wanted asset, or no wanted asset at all. */
  datatype Scan = Found(link: Option<string>) | NoneWanted

  /** The loop over the assets: `Found` on the first wanted one, `NoneWanted`
      when none is wanted, `Failure` when the loop raises before that. */
  function ScanAssets(assets: seq<Asset>): (r: Result<Scan, string>)
    ensures r.Success? && r.value.Found? ==>
      exists i :: 0 <= i < |assets| && IsWanted(assets[i]) && !assets[i].downloadUrl.Missing?
                  && Link(assets[i]) == r.value.link
    ensures r.Success? && r.value.NoneWanted? ==> forall i :: 0 <= i < |assets| ==> !IsWanted(assets[i])
    decreases |assets|
  {
    if |assets| == 0 then Success(NoneWanted)
    else
      var a := assets[0];
      match AssetName(a)
      case None => Failure("AttributeError")
      case Some(n) =>
        if IsWantedName(n) then
          if a.downloadUrl.Missing? then Failure("KeyError")
          else Success(Found(Link(a)))
        else
          var rest := ScanAssets(assets[1..]);
          assert rest.Success? && rest.value.Found? ==>
            exists i :: 1 <= i < |assets| && IsWanted(assets[i]) && !assets[i].downloadUrl.Missing?
                        && Link(assets[i]) == rest.value.link by {
            if rest.Success? && rest.value.Found? {
              var j :| 0 <= j < |assets[1..]| && IsWanted(assets[1..][j]) && !assets[1..][j].downloadUrl.Missing?
                       && Link(assets[1..][j]) == rest.value.link;
              assert assets[j + 1] == assets[1..][j];
            }
          }
          assert rest.Success? && rest.value.NoneWanted? ==> forall i :: 1 <= i < |assets| ==> !IsWanted(assets[i]) by {
            assert forall i :: 1 <= i < |assets| ==> assets[i] == assets[1..][i - 1];
          }
          rest
  }

  /** `get_latest_ffmpeg_url`: the download link of the first wanted asset of
      the latest release, or the fixed fallback link on any other outcome. A
      wanted asset whose link is a JSON `null` makes it return `None`. */
  function LatestFfmpegUrl(reply: ReleaseReply): (url: Option<string>)
    ensures url == Some(FallbackFfmpegUrl) ||
      exists a :: a in AssetsOf(reply) && IsWanted(a) && !a.downloadUrl.Missing? && Link(a) == url
    ensures url.None? ==> exists a :: a in AssetsOf(reply) && IsWanted(a) && a.downloadUrl.JsonNull?
    ensures reply.RequestFailed? || (reply.Reply? && reply.status != 200) ==> url == Some(FallbackFfmpegUrl)
  {
    match reply
    case RequestFailed => Some(FallbackFfmpegUrl)
    case Reply(status, body) =>
      if status != 200 then Some(FallbackFfmpegUrl)
      else
        match ScanAssets(AssetsOf(reply))
        case Success(Found(link)) => link
        case _ => Some(FallbackFfmpegUrl)
  }

  /** The asset list the loop walks: `data.get('assets', [])`, with a body that
      is not an object or a `null` list making the loop raise (modelled by the
      empty list, which also yields the fallback). */
  function AssetsOf(reply: ReleaseReply): seq<Asset> {
    if reply.Reply? && reply.body.Some? && reply.body.value.Value? then reply.body.value.v else []
  }

  /** The chosen link is the first wanted asset's, provided every asset before
      it has a readable name. */
  lemma FirstWantedAssetChosen(assets: seq<Asset>, i: nat, u: string)
    requires i < |assets| && IsWanted(assets[i]) && assets[i].downloadUrl == Value(u)
    requires forall j :: 0 <= j < i ==> AssetName(assets[j]).Some? && !IsWanted(assets[j])
    ensures LatestFfmpegUrl(Reply(200, Some(Value(assets)))) == Some(u)
  {
    FirstWantedScanned(assets, i);
  }

  /** A `null` link on the first wanted asset is returned as `None`: neither
      the fallback nor a later asset is used. */
  lemma NullLinkGivesNone(assets: seq<Asset>, i: nat)
    requires i < |assets| && IsWanted(assets[i]) && assets[i].downloadUrl.JsonNull?
    requires forall j :: 0 <= j < i ==> AssetName(assets[j]).Some? && !IsWanted(assets[j])
    ensures LatestFfmpegUrl(Reply(200, Some(Value(assets)))).None?
  {
    FirstWantedScanned(assets, i);
  }

  lemma {:induction false} FirstWantedScanned(assets: seq<Asset>, i: nat)
    requires i < |assets| && IsWanted(assets[i]) && !assets[i].downloadUrl.Missing?
    requires forall j :: 0 <= j < i ==> AssetName(assets[j]).Some? && !IsWanted(assets[j])
    ensures ScanAssets(assets) == Success(Found(Link(assets[i])))
    decreases i
  {
    if i > 0 {
      assert AssetName(assets[0]).Some? && !IsWanted(assets[0]);
      FirstWantedScanned(assets[1..], i - 1);
    }
  }

  /** With readable names and no wanted asset, the fallback link is used. */
  lemma {:induction false} NoWantedAssetFallsBack(assets: seq<Asset>)
    requires forall j :: 0 <= j < |assets| ==> AssetName(assets[j]).Some? && !IsWanted(assets[j])
    ensures ScanAssets(assets) == Success(NoneWanted)
    ensures LatestFfmpegUrl(Reply(200, Some(Value(assets)))) == Some(FallbackFfmpegUrl)
    decreases |assets|
  {
    if |assets| > 0 {
      NoWantedAssetFallsBack(assets[1..]);
    }
  }

  /** A wanted asset without a link makes the lookup raise: the fallback is
      used even when a later asset would have been wanted. */
  lemma {:induction false} MissingLinkFallsBack(assets: seq<Asset>, i: nat)
    requires i < |assets| && IsWanted(assets[i]) && assets[i].downloadUrl.Missing?
    requires forall j :: 0 <= j < i ==> AssetName(assets[j]).Some? && !IsWanted(assets[j])
    ensures ScanAssets(assets).Failure?
    ensures LatestFfmpegUrl(Reply(200, Some(Value(assets)))) == Some(FallbackFfmpegUrl)
    decreases i
  {
    if i > 0 {
      assert AssetName(assets[0]).Some? && !IsWanted(assets[0]);
      MissingLinkFallsBack(assets[1..], i - 1);
    }
  }

  // ---------------------------------------------------------------------------
  // Zip extraction

  /** The file name an archive entry is written under in the `bin` folder, or
      `None` when the entry is skipped: only files directly inside a folder
      named `bin` are kept. */
  function BinEntryName(entry: string): (r: Option<string>)
    ensures r.Some? ==> |r.value| > 0 && '/' !in r.value
  {
    var parts := Split(entry, '/');
    if |parts| > 1 && parts[|parts| - 2] == "bin" && parts[|parts| - 1] != "" then
      assert parts[|parts| - 1] in parts;
      Some(parts[|parts| - 1])
    else None
  }

  /** Every kept entry ends in `bin/<name>`, with `bin` a whole folder name. */
  lemma BinEntryShape(entry: string)
    requires BinEntryName(entry).Some?
    ensures var f := BinEntryName(entry).value;
      && |entry| >= |f| + 4
      && entry[|entry| - |f| - 4..] == "bin/" + f
      && (|entry| == |f| + 4 || entry[|entry| - |f| - 5] == '/')
  {
    var parts := Split(entry, '/');
    var n := |parts|;
    var f := parts[n - 1];
    var init := parts[..n - 2];
    JoinSplit(entry, '/');
    assert parts == init + ["bin"] + [f];
    JoinSnoc(init + ["bin"], f, '/');
    if |init| == 0 {
      assert init + ["bin"] == ["bin"];
      assert entry == [] + "bin/" + f;
      EndsInBinFolder(entry, [], f);
    } else {
      JoinSnoc(init, "bin", '/');
      var prefix := Join(init, '/') + ['/'];
      assert entry == prefix + "bin/" + f;
      EndsInBinFolder(entry, prefix, f);
    }
  }

  lemma EndsInBinFolder(entry: string, prefix: string, f: string)
    requires entry == prefix + "bin/" + f
    requires |prefix| == 0 || prefix[|prefix| - 1] == '/'
    ensures |entry| >= |f| + 4
    ensures entry[|entry| - |f| - 4..] == "bin/" + f
    ensures |entry| == |f| + 4 || entry[|entry| - |f| - 5] == '/'
  {
    assert entry[|prefix|..] == "bin/" + f;
  }

  /** The pieces of a path that ends in the folder name `bin`. */
  lemma SplitEndsInBin(prefix: string)
    requires |prefix| == 0 || prefix[|prefix| - 1] == '/'
    ensures var parts := Split(prefix + "bin", '/'); parts[|parts| - 1] == "bin"
  {
    SplitWithoutSeparator("bin", '/');
    if |prefix| == 0 {
      assert prefix + "bin" == "bin";
    } else {
      var p := prefix[..|prefix| - 1];
      assert prefix + "bin" == p + ['/'] + "bin";
      SplitAround(p, "bin", '/');
    }
  }

  /** Every file directly inside a `bin` folder is kept under its own name. */
  lemma BinEntryKept(prefix: string, f: string)
    requires |prefix| == 0 || prefix[|prefix| - 1] == '/'
    requires |f| > 0 && '/' !in f
    ensures BinEntryName(prefix + "bin/" + f) == Some(f)
  {
    var entry := prefix + "bin/" + f;
    assert entry == (prefix + "bin") + ['/'] + f;
    SplitAround(prefix + "bin", f, '/');
    SplitWithoutSeparator(f, '/');
    SplitEndsInBin(prefix);
    var parts := Split(entry, '/');
    assert parts == Split(prefix + "bin", '/') + [f];
  }

  /** Entries of the form `bin/` (a folder) or not inside `bin` are skipped. */
  lemma BinFolderSkipped(prefix: string)
    ensures BinEntryName(prefix + "bin/") == None
  {
    var entry := prefix + "bin/";
    assert entry == (prefix + "bin") + ['/'] + "";
    SplitAround(prefix + "bin", "", '/');
  }

  /** Writes the entries in archive order, each under the file name `target`
      gives it (entries it gives no name are skipped); a later entry with the
      same name overwrites an earlier one. The result maps each written file to
      the entry whose bytes it holds. */
  function WriteEntries(entries: seq<string>, target: string -> Option<string>): (files: map<string, string>)
    ensures forall f :: f in files ==> target(files[f]) == Some(f)
    decreases |entries|
  {
    if |entries| == 0 then map[]
    else
      var earlier := WriteEntries(entries[..|entries| - 1], target);
      var last := entries[|entries| - 1];
      match target(last)
      case Some(f) => earlier[f := last]
      case None => earlier
  }

  /** The files the installer writes into the `bin` folder. */
  function ExtractedFiles(entries: seq<string>): (files: map<string, string>)
    ensures forall f :: f in files ==> BinEntryName(files[f]) == Some(f)
  {
    WriteEntries(entries, BinEntryName)
  }

  /** The position of the last entry written under the name `f`, if any. */
  function LastWrittenAt(entries: seq<string>, target: string -> Option<string>, f: string): (at: Option<nat>)
    ensures at.Some? ==> at.value < |entries| && target(entries[at.value]) == Some(f)
    ensures at.Some? ==> forall j :: at.value < j < |entries| ==> target(entries[j]) != Some(f)
    ensures at.None? ==> forall j :: 0 <= j < |entries| ==> target(entries[j]) != Some(f)
    decreases |entries|
  {
    if |entries| == 0 then None
    else if target(entries[|entries| - 1]) == Some(f) then Some(|entries| - 1)
    else
      var init := entries[..|entries| - 1];
      assert forall j :: 0 <= j < |init| ==> init[j] == entries[j];
      LastWrittenAt(init, target, f)
  }

  /** A name is written iff some entry carries it, and the file then holds the
      last such entry. */
  lemma {:induction false} LastEntryWins(entries: seq<string>, target: string -> Option<string>, f: string)
    ensures f in WriteEntries(entries, target) <==> LastWrittenAt(entries, target, f).Some?
    ensures f in WriteEntries(entries, target) ==>
      WriteEntries(entries, target)[f] == entries[LastWrittenAt(entries, target, f).value]
    decreases |entries|
  {
    if |entries| > 0 {
      var init := entries[..|entries| - 1];
      LastEntryWins(init, target, f);
      if LastWrittenAt(init, target, f).Some? {
        assert init[LastWrittenAt(init, target, f).value] == entries[LastWrittenAt(init, target, f).value];
      }
    }
  }

  /** The `bin` folder ends up with one file per kept name, holding the last
      archive entry of that name. */
  lemma ExtractedFilesLastWins(entries: seq<string>, f: string)
    ensures f in ExtractedFiles(entries) <==> exists i :: 0 <= i < |entries| && BinEntryName(entries[i]) == Some(f)
    ensures f in ExtractedFiles(entries) ==>
      var at := LastWrittenAt(entries, BinEntryName, f).value;
      && ExtractedFiles(entries)[f] == entries[at]
      && BinEntryName(entries[at]) == Some(f)
      && forall j :: at < j < |entries| ==> BinEntryName(entries[j]) != Some(f)
  {
    LastEntryWins(entries, BinEntryName, f);
  }

  // ---------------------------------------------------------------------------
  // PATH update

  const LegacyFfmpegBin := "C:\\ffmpeg\\bin"

  datatype PathUpdate = AlreadyCurrent | Write(newPath: string)

  predicate IsLegacyEntry(p: string) {
    p == LegacyFfmpegBin || p == LegacyFfmpegBin + "\\"
  }

  predicate NonEmpty(p: string) {
    |p| > 0
  }

  /** The `PATH` entries that survive removal of the old `C:\ffmpeg\bin` entry. */
  function Survivors(current: string): seq<string> {
    Filter(Split(current, ';'), p => !IsLegacyEntry(p))
  }

  /** `add_to_path`: a missing `PATH` value reads as empty; the value is left
      alone when the target (with or without a trailing backslash) is already
      listed; otherwise the target is appended and empty entries dropped. */
  function MergePath(current: Option<string>, target: string): (u: PathUpdate)
    ensures u.AlreadyCurrent? <==>
      target in Survivors(current.GetOr("")) || target + "\\" in Survivors(current.GetOr(""))
  {
    var paths := Survivors(current.GetOr(""));
    if target in paths || target + "\\" in paths then AlreadyCurrent
    else Write(Join(Filter(paths + [target], NonEmpty), ';'))
  }

  /** The written value lists the surviving non-empty entries in their old order,
      then the target. */
  lemma MergeWritesSurvivorsThenTarget(current: Option<string>, target: string)
    requires |target| > 0 && ';' !in target
    requires MergePath(current, target).Write?
    ensures Split(MergePath(current, target).newPath, ';') ==
      Filter(Survivors(current.GetOr("")), NonEmpty) + [target]
  {
    var paths := Survivors(current.GetOr(""));
    var kept := Filter(paths, NonEmpty);
    FilterConcat(paths, [target], NonEmpty);
    FilterKeepsAll([target], NonEmpty);
    assert Filter(paths + [target], NonEmpty) == kept + [target];
    assert forall p :: p in kept ==> p in Split(current.GetOr(""), ';');
    SplitJoin(kept + [target], ';');
  }

  /** After a write the old `C:\ffmpeg\bin` entry is gone, no entry is empty,
      and the target is listed exactly once. */
  lemma MergeWriteContents(current: Option<string>, target: string)
    requires |target| > 0 && ';' !in target && !IsLegacyEntry(target)
    requires MergePath(current, target).Write?
    ensures var written := Split(MergePath(current, target).newPath, ';');
      && (forall p :: p in written ==> !IsLegacyEntry(p) && |p| > 0)
      && target in written
      && multiset(written)[target] == 1
  {
    var paths := Survivors(current.GetOr(""));
    var kept := Filter(paths, NonEmpty);
    MergeWritesSurvivorsThenTarget(current, target);
    var written := Split(MergePath(current, target).newPath, ';');
    assert written == kept + [target];
    assert forall p :: p in kept ==> p in paths && |p| > 0;
    assert forall p :: p in paths ==> !IsLegacyEntry(p);
    assert target !in kept;
    assert multiset(kept)[target] == 0;
    assert multiset(written) == multiset(kept) + multiset{target};
  }

  /** Running the installer again on the value it wrote changes nothing. */
  lemma MergeIsIdempotent(current: Option<string>, target: string)
    requires |target| > 0 && ';' !in target && !IsLegacyEntry(target)
    requires MergePath(current, target).Write?
    ensures MergePath(Some(MergePath(current, target).newPath), target) == AlreadyCurrent
  {
    var written := MergePath(current, target).newPath;
    MergeWriteContents(current, target);
    assert target in Split(written, ';');
    FilterKeepsAll(Split(written, ';'), p => !IsLegacyEntry(p));
  }

  /** A `PATH` that already lists the target is left alone, whatever else it
      holds. */
  lemma ListedTargetIsCurrent(before: string, after: string, target: string)
    requires ';' !in target && !IsLegacyEntry(target)
    ensures MergePath(Some(before + ";" + target + ";" + after), target) == AlreadyCurrent
  {
    var s := before + ";" + target + ";" + after;
    assert s == before + [';'] + (target + [';'] + after);
    SplitAround(before, target + [';'] + after, ';');
    SplitAround(target, after, ';');
    SplitWithoutSeparator(target, ';');
    var parts := Split(s, ';');
    assert parts == Split(before, ';') + ([target] + Split(after, ';'));
    assert target in parts;
  }
}
