/** `sanitize_filename` (vidextract.py, one copy in `DownloadThread` and one
    in the main window): turns a title into a name safe to use as a file or
    folder name.

    The source first applies Unicode NFKD normalisation and then encodes to
    ASCII, dropping what does not fit. The normalisation is library behaviour
    and is not part of this model: `filename` here is the already-normalised
    text, and the ASCII drop is the first stage below. */
module Sanitize {
  import opened Wrappers
  import opened Text

  const DefaultMaxLength: nat := 100

  /** The characters the first filter removes: backslash, slash, `*`, `?`,
      `:`, `"`, `<`, `>` and `|`. */
  predicate IsIllegal(c: char) {
    c in "\\/*?:\"<>|"
  }

  predicate IsLegal(c: char) {
    !IsIllegal(c)
  }

  /** The characters `[^a-zA-Z0-9\s\-_#\.]` does not remove. */
  predicate IsKept(c: char) {
    IsAsciiLetter(c) || IsDigit(c) || IsSpace(c) || c == '-' || c == '_' || c == '#' || c == '.'
  }

  predicate IsDashOrUnderscore(c: char) {
    c == '-' || c == '_'
  }

  /** The characters a sanitised name is made of. */
  predicate IsSafeChar(c: char) {
    IsAsciiLetter(c) || IsDigit(c) || c == ' ' || c == '_' || c == '#' || c == '.'
  }

  predicate NoAdjacent(s: string, P: char -> bool) {
    forall i :: 0 <= i < |s| - 1 ==> !(P(s[i]) && P(s[i + 1]))
  }

  predicate NoDoubled(s: string, c: char) {
    forall i :: 0 <= i < |s| - 1 ==> !(s[i] == c && s[i + 1] == c)
  }

  /** What every result of `SanitizeFilename` looks like: only safe
      characters, no two spaces or two underscores in a row, and no space at
      either end. */
  predicate IsClean(s: string) {
    && (forall i :: 0 <= i < |s| ==> IsSafeChar(s[i]))
    && NoDoubled(s, ' ')
    && NoDoubled(s, '_')
    && (|s| > 0 ==> s[0] != ' ' && s[|s| - 1] != ' ')
  }

  /** `re.sub(r'[...]+', rep, s)`: every maximal run of characters satisfying
      `P` becomes one `rep`. A run character is dropped when the character
      before it also belongs to the run. */
  function Collapse(s: string, P: char -> bool, rep: char): (r: string)
    ensures |r| == 0 <==> |s| == 0
    ensures |s| > 0 ==> r[|r| - 1] == (if P(s[|s| - 1]) then rep else s[|s| - 1])
    ensures forall c :: c in r ==> c == rep || (!P(c) && c in s)
    ensures NoAdjacent(r, P)
    decreases |s|
  {
    if |s| == 0 then ""
    else
      var init := Collapse(s[..|s| - 1], P, rep);
      var c := s[|s| - 1];
      if !P(c) then init + [c]
      else if |s| >= 2 && P(s[|s| - 2]) then init
      else init + [rep]
  }

  /** The test that keeps the characters outside the runs. */
  function Outside(P: char -> bool): char -> bool {
    c => !P(c)
  }

  /** Outside the runs nothing changes: when `rep` is itself a run character,
      the characters that are not run characters are kept, in order. */
  lemma {:induction false} CollapseKeepsOthers(s: string, P: char -> bool, rep: char)
    requires P(rep)
    ensures Filter(Collapse(s, P, rep), Outside(P)) == Filter(s, Outside(P))
    decreases |s|
  {
    if |s| > 0 {
      CollapseKeepsOthers(s[..|s| - 1], P, rep);
      FilterSnoc(s, Outside(P));
      CollapseStepOthers(s, P, rep);
    }
  }

  /** One step of the collapse adds to the kept characters exactly what the
      last input character adds. */
  lemma {:induction false} CollapseStepOthers(s: string, P: char -> bool, rep: char)
    requires P(rep) && |s| > 0
    ensures Filter(Collapse(s, P, rep), Outside(P))
         == Filter(Collapse(s[..|s| - 1], P, rep), Outside(P)) + Filter([s[|s| - 1]], Outside(P))
  {
    var keep := Outside(P);
    var c := s[|s| - 1];
    var ri := Collapse(s[..|s| - 1], P, rep);
    var r := Collapse(s, P, rep);
    if !P(c) {
      assert r == ri + [c];
      FilterConcat(ri, [c], keep);
    } else if |s| >= 2 && P(s[|s| - 2]) {
      assert r == ri;
      assert Filter([c], keep) == [];
    } else {
      assert r == ri + [rep];
      FilterConcat(ri, [rep], keep);
      assert Filter([c], keep) == [] && Filter([rep], keep) == [];
    }
  }

  /** Collapsing a text that has no runs and spells every run character as
      `rep` changes nothing. */
  lemma {:induction false} CollapseUnchanged(s: string, P: char -> bool, rep: char)
    requires forall i :: 0 <= i < |s| && P(s[i]) ==> s[i] == rep
    requires NoAdjacent(s, P)
    ensures Collapse(s, P, rep) == s
    decreases |s|
  {
    if |s| > 0 {
      var init := s[..|s| - 1];
      CollapseUnchanged(init, P, rep);
      assert init + [s[|s| - 1]] == s;
    }
  }

  function DropNonAscii(s: string): string {
    Filter(s, IsAscii)
  }

  function RemoveIllegal(s: string): string {
    Filter(s, IsLegal)
  }

  function KeepAllowed(s: string): string {
    Filter(s, IsKept)
  }

  function CollapseWhitespace(s: string): string {
    Collapse(s, IsSpace, ' ')
  }

  function CollapseDashes(s: string): string {
    Collapse(s, IsDashOrUnderscore, '_')
  }

  /** Collapsing `_`/`-` runs never puts two whitespace characters side by
      side. */
  lemma {:induction false} CollapseDashesKeepsSpacing(s: string)
    requires NoAdjacent(s, IsSpace)
    ensures NoAdjacent(CollapseDashes(s), IsSpace)
    decreases |s|
  {
    if |s| > 0 {
      var init := s[..|s| - 1];
      CollapseDashesKeepsSpacing(init);
      var ri := CollapseDashes(init);
      var r := CollapseDashes(s);
      var c := s[|s| - 1];
      if !IsDashOrUnderscore(c) && |init| > 0 {
        assert ri[|ri| - 1] == (if IsDashOrUnderscore(s[|s| - 2]) then '_' else s[|s| - 2]);
        assert r == ri + [c];
      }
    }
  }

  /** Every stage up to and including `strip()`, before truncation. */
  function CleanText(filename: string): string {
    Strip(CollapseDashes(CollapseWhitespace(KeepAllowed(RemoveIllegal(DropNonAscii(filename))))))
  }

  /** After the whitespace collapse every whitespace character is a space, no
      two are adjacent, and everything else passed the character filter. */
  lemma WhitespaceStage(c: string)
    requires forall i :: 0 <= i < |c| ==> IsKept(c[i])
    ensures var d := CollapseWhitespace(c);
      && (forall i :: 0 <= i < |d| ==> d[i] == ' ' || (!IsSpace(d[i]) && IsKept(d[i])))
      && NoAdjacent(d, IsSpace)
  {
    var d := CollapseWhitespace(c);
    assert forall i :: 0 <= i < |d| ==> d[i] in d;
  }

  lemma DashStage(d: string)
    requires forall i :: 0 <= i < |d| ==> d[i] == ' ' || (!IsSpace(d[i]) && IsKept(d[i]))
    requires NoAdjacent(d, IsSpace)
    ensures var e := CollapseDashes(d);
      && (forall i :: 0 <= i < |e| ==> IsSafeChar(e[i]) && (IsSpace(e[i]) ==> e[i] == ' '))
      && NoAdjacent(e, IsSpace)
      && NoAdjacent(e, IsDashOrUnderscore)
  {
    var e := CollapseDashes(d);
    assert forall i :: 0 <= i < |e| ==> e[i] in e;
    assert forall ch :: ch in d ==> ch == ' ' || (!IsSpace(ch) && IsKept(ch));
    CollapseDashesKeepsSpacing(d);
  }

  lemma StripStage(e: string)
    requires forall i :: 0 <= i < |e| ==> IsSafeChar(e[i]) && (IsSpace(e[i]) ==> e[i] == ' ')
    requires NoAdjacent(e, IsSpace)
    requires NoAdjacent(e, IsDashOrUnderscore)
    ensures IsClean(Strip(e))
  {
    var f := Strip(e);
    var a := StripStart(e);
    assert f == e[a..a + |f|];
    SliceIsClean(e, a, a + |f|);
  }

  /** A block of such a text with no space at either end is clean. */
  lemma SliceIsClean(e: string, lo: nat, hi: nat)
    requires lo <= hi <= |e|
    requires forall i :: 0 <= i < |e| ==> IsSafeChar(e[i]) && (IsSpace(e[i]) ==> e[i] == ' ')
    requires NoAdjacent(e, IsSpace)
    requires NoAdjacent(e, IsDashOrUnderscore)
    requires lo < hi ==> !IsSpace(e[lo]) && !IsSpace(e[hi - 1])
    ensures IsClean(e[lo..hi])
  {
    var f := e[lo..hi];
    forall i | 0 <= i < |f| - 1
      ensures !(f[i] == ' ' && f[i + 1] == ' ') && !(f[i] == '_' && f[i + 1] == '_')
    {
      assert f[i] == e[lo + i] && f[i + 1] == e[lo + i + 1];
    }
    assert forall i :: 0 <= i < |f| ==> f[i] == e[lo + i];
  }

  lemma CleanTextIsClean(filename: string)
    ensures IsClean(CleanText(filename))
  {
    var c := KeepAllowed(RemoveIllegal(DropNonAscii(filename)));
    assert forall i :: 0 <= i < |c| ==> c[i] in c;
    WhitespaceStage(c);
    DashStage(CollapseWhitespace(c));
    StripStage(CollapseDashes(CollapseWhitespace(c)));
  }

  /** The last position of `c` in `t`, if any. */
  function LastIndexOf(t: string, c: char): (k: Option<nat>)
    ensures k.Some? ==> k.value < |t| && t[k.value] == c && forall j :: k.value < j < |t| ==> t[j] != c
    ensures k.None? ==> c !in t
    decreases |t|
  {
    if |t| == 0 then None
    else if t[|t| - 1] == c then Some(|t| - 1)
    else LastIndexOf(t[..|t| - 1], c)
  }

  /** `t.rsplit(sep, 1)`: the text before and after the last separator, or
      the whole text when it has none. The list is never empty. */
  function RSplitOnce(t: string, sep: char): (parts: seq<string>)
    ensures 1 <= |parts| <= 2
    ensures |parts| == 1 ==> parts[0] == t && sep !in t
    ensures |parts| == 2 ==> t == parts[0] + [sep] + parts[1] && sep !in parts[1]
  {
    match LastIndexOf(t, sep)
    case None => [t]
    case Some(k) =>
      assert t == t[..k] + [sep] + t[k + 1..];
      [t[..k], t[k + 1..]]
  }

  /** The `len > max_length` branch of the `DownloadThread` copy. */
  function Truncate(s: string, maxLength: nat): string {
    if |s| > maxLength then RSplitOnce(s[..maxLength], ' ')[0] else s
  }

  lemma TruncateKeepsClean(s: string, maxLength: nat)
    requires IsClean(s)
    ensures IsClean(Truncate(s, maxLength)) && |Truncate(s, maxLength)| <= maxLength
  {
    if |s| > maxLength {
      var w := s[..maxLength];
      var parts := RSplitOnce(w, ' ');
      var r := parts[0];
      assert forall i :: 0 <= i < |r| ==> r[i] == s[i];
      if |parts| == 2 {
        assert w[|r|] == ' ';
        if |r| > 0 {
          assert r[|r| - 1] == s[|r| - 1];
          assert s[|r|] == ' ';
        }
      }
    }
  }

  /** `DownloadThread.sanitize_filename(filename, max_length)`. */
  function SanitizeFilename(filename: string, maxLength: nat): (r: string)
    ensures IsClean(r)
    ensures |r| <= maxLength
  {
    CleanTextIsClean(filename);
    TruncateKeepsClean(CleanText(filename), maxLength);
    Truncate(CleanText(filename), maxLength)
  }

  /** The main-window copy: the same pipeline, with an `IndexError` fallback
      to the hard-truncated prefix around the `rsplit`. `rsplit` never
      returns an empty list, so the fallback is dead and both copies agree. */
  function SanitizeFilenameGuarded(filename: string, maxLength: nat): (r: string)
    ensures r == SanitizeFilename(filename, maxLength)
  {
    var s := CleanText(filename);
    if |s| > maxLength then
      var prefix := s[..maxLength];
      var parts := RSplitOnce(prefix, ' ');
      if |parts| == 0 then prefix else parts[0]
    else s
  }

  /** Truncation cuts the first `maxLength` characters just before their
      last space, or keeps them all when they hold no space. */
  lemma TruncationCutsAtLastSpace(filename: string, maxLength: nat)
    requires |CleanText(filename)| > maxLength
    ensures var w := CleanText(filename)[..maxLength];
            var r := SanitizeFilename(filename, maxLength);
            if ' ' in w then r + " " <= w && ' ' !in w[|r| + 1..] else r == w
  {
    var w := CleanText(filename)[..maxLength];
    var parts := RSplitOnce(w, ' ');
    if |parts| == 2 {
      assert w[|parts[0]| + 1..] == parts[1];
    }
  }

  lemma FiltersKeepClean(s: string)
    requires IsClean(s)
    ensures KeepAllowed(RemoveIllegal(DropNonAscii(s))) == s
  {
    assert forall i :: 0 <= i < |s| ==> IsAscii(s[i]) && IsLegal(s[i]) && IsKept(s[i]);
    FilterKeepsAll(s, IsAscii);
    FilterKeepsAll(s, IsLegal);
    FilterKeepsAll(s, IsKept);
  }

  lemma CollapsesKeepClean(s: string)
    requires IsClean(s)
    ensures CollapseDashes(CollapseWhitespace(s)) == s
  {
    assert forall i :: 0 <= i < |s| && IsSpace(s[i]) ==> s[i] == ' ';
    CollapseUnchanged(s, IsSpace, ' ');
    assert forall i :: 0 <= i < |s| && IsDashOrUnderscore(s[i]) ==> s[i] == '_';
    CollapseUnchanged(s, IsDashOrUnderscore, '_');
  }

  /** A name that is already clean and short enough is a fixed point. */
  lemma CleanIsFixedPoint(s: string, maxLength: nat)
    requires IsClean(s) && |s| <= maxLength
    ensures SanitizeFilename(s, maxLength) == s
  {
    FiltersKeepClean(s);
    CollapsesKeepClean(s);
    StripUnpadded(s);
  }

  /** The fixed points of the sanitiser are exactly the clean names within the
      length limit. */
  lemma FixedPointIff(s: string, maxLength: nat)
    ensures SanitizeFilename(s, maxLength) == s <==> IsClean(s) && |s| <= maxLength
  {
    if IsClean(s) && |s| <= maxLength {
      CleanIsFixedPoint(s, maxLength);
    }
  }

  /** A clean name without spaces is only cut to the length limit. */
  lemma SpacelessCleanSanitized(s: string, maxLength: nat)
    requires IsClean(s) && ' ' !in s
    ensures SanitizeFilename(s, maxLength) == if |s| <= maxLength then s else s[..maxLength]
  {
    FiltersKeepClean(s);
    CollapsesKeepClean(s);
    StripUnpadded(s);
    assert CleanText(s) == s;
    if |s| > maxLength {
      assert ' ' !in s[..maxLength];
    }
  }

  /** A clean name followed by digits is still clean and has no spaces. */
  lemma CleanThenDigits(a: string, d: string)
    requires IsClean(a) && ' ' !in a && AllDigits(d)
    ensures IsClean(a + d) && ' ' !in a + d
  {
    var t := a + d;
    assert forall i :: 0 <= i < |t| ==> t[i] in a || t[i] in d;
    assert forall i :: |a| <= i < |t| ==> t[i] == d[i - |a|];
  }

  /** Sanitising twice is the same as sanitising once. */
  lemma SanitizeIdempotent(filename: string, maxLength: nat)
    ensures SanitizeFilename(SanitizeFilename(filename, maxLength), maxLength)
         == SanitizeFilename(filename, maxLength)
  {
    CleanIsFixedPoint(SanitizeFilename(filename, maxLength), maxLength);
  }
}
