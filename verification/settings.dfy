/** The typed settings store (`settings_manager.py`): five known keys, each with
    a default whose type decides how a stored value is read back.

    The persistent store is a map from key to the value Qt hands back. Qt's own
    conversion of stored values is not part of this model: the coercion below
    is the Python one that `get_setting` applies afterwards. */
module Settings {
  import opened Wrappers
  import opened Text

  /** A value as Python sees it. `Other` is any value that `int()` rejects with
      `TypeError` and that is neither a `bool`, an `int` nor a `str`; it carries
      its `str()` text. */
  datatype Value = Str(s: string) | Int(i: int) | Bool(b: bool) | Other(text: string)

  type Store = map<string, Value>

  datatype SettingsError = UnknownKey(key: string)

  const DownloadFolderKey := "download_folder"
  const LanguageIndexKey := "language_index"
  const ThemeModeKey := "theme_mode"
  const CookiePathKey := "cookie_file_path"
  const ClipboardMonitorKey := "clipboard_monitor"

  /** The keys of `DEFAULT_VALUES`, in declaration order. */
  const DefaultKeys: seq<string> := [DownloadFolderKey, LanguageIndexKey, ThemeModeKey, CookiePathKey, ClipboardMonitorKey]

  const DefaultValues: map<string, Value> := map[
    DownloadFolderKey := Str("downloads"),
    LanguageIndexKey := Int(1),
    ThemeModeKey := Str("dark"),
    CookiePathKey := Str(""),
    ClipboardMonitorKey := Bool(true)]

  lemma DefaultKeysAreTheDefaults()
    ensures forall k :: k in DefaultValues <==> k in DefaultKeys
    ensures forall i, j :: 0 <= i < j < |DefaultKeys| ==> DefaultKeys[i] != DefaultKeys[j]
  {
  }

  predicate SameKind(a: Value, b: Value) {
    (a.Str? && b.Str?) || (a.Int? && b.Int?) || (a.Bool? && b.Bool?) || (a.Other? && b.Other?)
  }

  /** The strings `value_to_bool` reads as true, after lowering. */
  const TrueWords: set<string> := {"true", "1", "t", "yes", "y"}

  /** `value_to_bool`. */
  function ValueToBool(v: Value): (r: bool)
    ensures v.Bool? ==> r == v.b
    ensures v.Str? ==> (r <==> Lower(v.s) in TrueWords)
    ensures v.Int? ==> (r <==> v.i != 0)
    ensures v.Other? ==> !r
  {
    match v
    case Bool(b) => b
    case Str(s) => Lower(s) in TrueWords
    case Int(i) => i != 0
    case Other(_) => false
  }

  /** `int(value)`: `None` where Python raises `ValueError` or `TypeError`.
      `bool` is a subclass of `int`, so `int(True) == 1`. */
  function ToInt(v: Value): (r: Option<int>)
    ensures v.Int? ==> r == Some(v.i)
    ensures v.Bool? ==> r == Some(if v.b then 1 else 0)
    ensures v.Other? ==> r.None?
  {
    match v
    case Int(i) => Some(i)
    case Bool(b) => Some(if b then 1 else 0)
    case Str(s) => ParseInt(s)
    case Other(_) => None
  }

  /** `str(value)`. */
  function ToStr(v: Value): string {
    match v
    case Str(s) => s
    case Int(i) => IntToString(i)
    case Bool(b) => if b then "True" else "False"
    case Other(t) => t
  }

  /** The conversion chosen by the type of the default, falling back to the
      default when the conversion raises. */
  function Coerce(default: Value, v: Value): (r: Value)
    requires !default.Other?
    ensures SameKind(r, default)
    ensures default.Int? && ToInt(v).Some? ==> r == Int(ToInt(v).value)
    ensures default.Int? && ToInt(v).None? ==> r == default
  {
    match default
    case Int(_) => (if ToInt(v).Some? then Int(ToInt(v).value) else default)
    case Bool(_) => Bool(ValueToBool(v))
    case Str(_) => Str(ToStr(v))
  }

  /** `get_setting`: an unknown key raises `KeyError`; a missing entry reads as
      the default; the stored value is coerced to the default's type. */
  function GetSetting(store: Store, key: string): (r: Result<Value, SettingsError>)
    ensures r.Failure? <==> key !in DefaultValues
    ensures r.Success? ==> SameKind(r.value, DefaultValues[key])
  {
    if key !in DefaultValues then Failure(UnknownKey(key))
    else
      var default := DefaultValues[key];
      var stored := if key in store then store[key] else default;
      Success(Coerce(default, stored))
  }

  /** `save_setting`: `None` is ignored, anything else is stored as given. */
  function SaveSetting(store: Store, key: string, value: Option<Value>): (r: Store)
    ensures value.None? ==> r == store
    ensures value.Some? ==> key in r && r[key] == value.value
    ensures forall k :: k != key ==> (k in r <==> k in store) && (k in r ==> r[k] == store[k])
  {
    match value
    case None => store
    case Some(v) => store[key := v]
  }

  /** `get_all_settings`: every known key with the value `get_setting` reads. */
  function GetAllSettings(store: Store): (all: map<string, Value>)
    ensures forall k :: k in all <==> k in DefaultValues
    ensures forall k :: k in all ==> GetSetting(store, k) == Success(all[k])
  {
    map k | k in DefaultValues :: GetSetting(store, k).value
  }

  /** Reading a value of the default's own type gives the value back. */
  lemma CoerceKeepsSameKind(default: Value, v: Value)
    requires !default.Other? && SameKind(v, default)
    ensures Coerce(default, v) == v
  {
  }

  /** A key never saved reads as its default. */
  lemma UnsavedReadsDefault(store: Store, key: string)
    requires key in DefaultValues && key !in store
    ensures GetSetting(store, key) == Success(DefaultValues[key])
  {
    CoerceKeepsSameKind(DefaultValues[key], DefaultValues[key]);
  }

  /** Reading a key back after saving it gives the saved value coerced to the
      key's type, and exactly the saved value when it already has that type;
      other keys read as before. */
  lemma SaveThenGet(store: Store, key: string, v: Value, other: string)
    requires key in DefaultValues && other != key
    ensures GetSetting(SaveSetting(store, key, Some(v)), key) == Success(Coerce(DefaultValues[key], v))
    ensures SameKind(v, DefaultValues[key]) ==> GetSetting(SaveSetting(store, key, Some(v)), key) == Success(v)
    ensures GetSetting(SaveSetting(store, key, Some(v)), other) == GetSetting(store, other)
  {
    if SameKind(v, DefaultValues[key]) {
      CoerceKeepsSameKind(DefaultValues[key], v);
    }
  }

  /** An integer setting stored as its decimal text reads back as the integer. */
  lemma IntegerTextReadsBack(store: Store, i: int)
    ensures GetSetting(SaveSetting(store, LanguageIndexKey, Some(Str(IntToString(i)))), LanguageIndexKey) == Success(Int(i))
  {
    ParseIntRoundTrip(i);
  }

  /** An integer setting holding text that is not a number reads as its
      default. */
  lemma MalformedIntegerReadsDefault(store: Store, s: string)
    requires ParseInt(s).None?
    ensures GetSetting(SaveSetting(store, LanguageIndexKey, Some(Str(s))), LanguageIndexKey) == Success(Int(1))
  {
  }

  /** A boolean setting stored as Python's `str()` of a bool reads back as that
      bool. */
  lemma BooleanTextReadsBack(store: Store, b: bool)
    ensures GetSetting(SaveSetting(store, ClipboardMonitorKey, Some(Str(ToStr(Bool(b))))), ClipboardMonitorKey) == Success(Bool(b))
  {
    var t := ToStr(Bool(b));
    if b {
      assert Lower(t) == "true";
    } else {
      assert Lower(t) == "false";
    }
  }

  /** Saving `None` changes nothing that can be read. */
  lemma SaveNoneIsNoOp(store: Store, key: string, k: string)
    ensures GetSetting(SaveSetting(store, key, None), k) == GetSetting(store, k)
  {
  }

  /** A fresh store reads as the defaults. */
  lemma FreshStoreReadsDefaults()
    ensures GetAllSettings(map[]) == DefaultValues
  {
    forall k | k in DefaultValues
      ensures GetAllSettings(map[])[k] == DefaultValues[k]
    {
      UnsavedReadsDefault(map[], k);
    }
  }
}
