/** `parseTrackInfoFromFilename` (build/worker/zip-utils.mjs): a track number
    and a title read off an audio file's name. */
module TrackInfo {
  import opened Wrappers
  import opened Text

  // ---------------------------------------------------------------------------
  // `replace(/\.[^/.]+$/, '')`

  /** Neither a dot nor a slash: the characters `[^/.]` matches. */
  predicate IsExtensionChar(c: char) {
    c != '.' && c != '/'
  }

  /** The number of characters at the end of `s` that `[^/.]` matches. */
  function TrailingRun(s: string): (n: nat)
    ensures n <= |s|
    ensures forall j :: |s| - n <= j < |s| ==> IsExtensionChar(s[j])
    ensures n < |s| ==> !IsExtensionChar(s[|s| - n - 1])
  {
    if s == [] || !IsExtensionChar(s[|s| - 1]) then 0
    else 1 + TrailingRun(s[..|s| - 1])
  }

  /** `s[k]` is a dot followed, up to the end, by at least one character that is
      neither a dot nor a slash: where the extension pattern matches. */
  predicate ExtensionAt(s: string, k: int) {
    0 <= k < |s| - 1 && s[k] == '.' && forall j :: k < j < |s| ==> IsExtensionChar(s[j])
  }

  function StripExtension(filename: string): (r: string)
    ensures |r| <= |filename| && r == filename[..|r|]
  {
    var n := TrailingRun(filename);
    if 1 <= n < |filename| && filename[|filename| - n - 1] == '.' then filename[..|filename| - n - 1]
    else filename
  }

  /** The extension is removed exactly when the pattern matches, and then the
      cut is at the one position where it matches. */
  lemma {:induction false} StripExtensionSpec(filename: string)
    ensures StripExtension(filename) != filename <==> exists k :: ExtensionAt(filename, k)
    ensures forall k :: ExtensionAt(filename, k) ==> StripExtension(filename) == filename[..k]
  {
    var n := TrailingRun(filename);
    var m := |filename|;
    assert forall k :: ExtensionAt(filename, k) ==> m - n - 1 == k && 1 <= n;
    if StripExtension(filename) != filename {
      assert ExtensionAt(filename, m - n - 1);
    }
  }

  // ---------------------------------------------------------------------------
  // Digits

  predicate AllDigits(s: string) {
    forall i :: 0 <= i < |s| ==> IsDigit(s[i])
  }

  /** The length of the run of decimal digits that begins `s`. */
  function LeadingDigits(s: string): (n: nat)
    ensures n <= |s| && AllDigits(s[..n])
    ensures n < |s| ==> !IsDigit(s[n])
  {
    if s != [] && IsDigit(s[0]) then
      var n := 1 + LeadingDigits(s[1..]);
      assert forall i :: 1 <= i < n ==> s[..n][i] == s[1..][..n - 1][i - 1];
      n
    else 0
  }

  /** The separators `[\s\-_.]`. */
  predicate IsSeparator(c: char) {
    IsSpace(c) || c == '-' || c == '_' || c == '.'
  }

  /** The length of the run of separators that begins `s`. */
  function LeadingSeparators(s: string): (n: nat)
    ensures n <= |s| && forall i :: 0 <= i < n ==> IsSeparator(s[i])
    ensures n < |s| ==> !IsSeparator(s[n])
  {
    if s != [] && IsSeparator(s[0]) then 1 + LeadingSeparators(s[1..]) else 0
  }

  function DigitValue(c: char): nat
    requires IsDigit(c)
  {
    c as int - '0' as int
  }

  /** `parseInt` of a run of decimal digits. */
  function DecimalValue(d: string): nat
    requires AllDigits(d)
  {
    if d == [] then 0 else 10 * DecimalValue(d[..|d| - 1]) + DigitValue(d[|d| - 1])
  }

  /** The decimal rendering of `v`, without leading zeros. */
  function DecimalString(v: nat): (d: string)
    ensures AllDigits(d) && |d| >= 1
  {
    var last := ('0' as int + v % 10) as char;
    if v < 10 then [last] else DecimalString(v / 10) + [last]
  }

  /** Reading back the rendering of a number gives the number. */
  lemma {:induction false} DecimalRoundTrip(v: nat)
    ensures DecimalValue(DecimalString(v)) == v
  {
    var d := DecimalString(v);
    if v >= 10 {
      DecimalRoundTrip(v / 10);
      assert d[..|d| - 1] == DecimalString(v / 10);
    }
  }

  /** Leading zeros do not change the value. */
  lemma {:induction false} DecimalLeadingZero(d: string)
    requires AllDigits(d)
    ensures DecimalValue(['0'] + d) == DecimalValue(d)
  {
    if d != [] {
      DecimalLeadingZero(d[..|d| - 1]);
      assert (['0'] + d)[..|d|] == ['0'] + d[..|d| - 1];
    }
  }

  // ---------------------------------------------------------------------------
  // Track number and title

  /** `s` starts with `k` digits and a separator: where `^(\d+)[\s\-_.]` matches. */
  predicate NumberPrefix(s: string, k: int) {
    1 <= k < |s| && AllDigits(s[..k]) && IsSeparator(s[k])
  }

  /** `match(/^(\d+)[\s\-_.]/)` and `parseInt` of the captured digits. */
  function TrackNumber(nameWithoutExt: string): Option<nat> {
    var n := LeadingDigits(nameWithoutExt);
    if 1 <= n < |nameWithoutExt| && IsSeparator(nameWithoutExt[n]) then Some(DecimalValue(nameWithoutExt[..n]))
    else None
  }

  /** There is a track number exactly when the pattern matches, and it is the
      value of the digits the pattern captures. */
  lemma {:induction false} TrackNumberSpec(s: string)
    ensures TrackNumber(s).Some? <==> exists k :: NumberPrefix(s, k)
    ensures forall k :: NumberPrefix(s, k) ==> TrackNumber(s) == Some(DecimalValue(s[..k]))
  {
    var n := LeadingDigits(s);
    assert forall k :: NumberPrefix(s, k) ==> k == n;
    if TrackNumber(s).Some? {
      assert NumberPrefix(s, n);
    }
  }

  /** `replace(/[\-_]/g, ' ')`: no dash or underscore is left, and a
      character changes only when it becomes a space. */
  function DashesToSpaces(s: string): (r: string)
    ensures |r| == |s|
    ensures '-' !in r && '_' !in r
    ensures forall i :: 0 <= i < |s| && r[i] != s[i] ==> r[i] == ' '
    ensures forall i :: 0 <= i < |s| && s[i] != '-' && s[i] != '_' ==> r[i] == s[i]
  {
    seq(|s|, i requires 0 <= i < |s| => if s[i] == '-' || s[i] == '_' then ' ' else s[i])
  }

  /** `replace(/^\d+[\s\-_.]*\/, '')`: leading digits and the separators after them. */
  function DropTrackNumber(s: string): (r: string)
    ensures |r| <= |s| && r == s[|s| - |r|..]
    ensures LeadingDigits(s) == 0 ==> r == s
    ensures LeadingDigits(s) > 0 ==>
              && |s| - |r| >= LeadingDigits(s)
              && (forall i :: LeadingDigits(s) <= i < |s| - |r| ==> IsSeparator(s[i]))
              && (r == [] || !IsSeparator(r[0]))
  {
    var n := LeadingDigits(s);
    if n == 0 then s
    else
      var m := LeadingSeparators(s[n..]);
      assert forall i :: n <= i < n + m ==> s[i] == s[n..][i - n];
      assert n + m < |s| ==> s[n + m] == s[n..][m];
      s[n + m..]
  }

  /** The rest of the title clean-up: separators to spaces, runs of white
      space to one space, `trim()`. */
  function CleanTitle(nameWithoutExt: string): string {
    Trim(CollapseSpaces(DashesToSpaces(DropTrackNumber(nameWithoutExt))))
  }

  datatype TrackInfo = TrackInfo(trackNumber: Option<nat>, title: string)

  const Untitled := "Untitled"

  function ParseTrackInfoFromFilename(filename: string): TrackInfo {
    var nameWithoutExt := StripExtension(filename);
    var title := CleanTitle(nameWithoutExt);
    TrackInfo(TrackNumber(nameWithoutExt), if title == "" then Untitled else title)
  }

  /** A cleaned title has single plain spaces between words, none at its ends,
      no dash or underscore, and only characters of the name besides. */
  lemma {:induction false} CleanTitleSpec(s: string)
    ensures Trimmed(CleanTitle(s)) && SingleSpaced(CleanTitle(s))
    ensures '-' !in CleanTitle(s) && '_' !in CleanTitle(s)
    ensures forall c :: c in CleanTitle(s) && !IsSpace(c) ==> c in s
  {
    var d := DropTrackNumber(s);
    var x := DashesToSpaces(d);
    var y := CollapseSpaces(x);
    CollapseSpacesSpec(x);
    TrimSpec(y);
    SingleSpacedTrim(y);
    forall c | c in CleanTitle(s) && !IsSpace(c) ensures c in s && c != '-' && c != '_' {
      assert c in y;
      assert c in x;
      var i :| 0 <= i < |x| && x[i] == c;
      assert d[i] == s[|s| - |d| + i];
    }
  }

  /** The parsed title is never empty, is "Untitled" when nothing is left of
      the name, and is otherwise the cleaned name. */
  lemma {:induction false} ParseTrackInfoSpec(filename: string)
    ensures var info := ParseTrackInfoFromFilename(filename);
            && info.title != ""
            && Trimmed(info.title) && SingleSpaced(info.title)
            && '-' !in info.title && '_' !in info.title
            && (info.title == Untitled <==> CleanTitle(StripExtension(filename)) in {"", Untitled})
            && (CleanTitle(StripExtension(filename)) != "" ==> info.title == CleanTitle(StripExtension(filename)))
            && (info.trackNumber.Some? <==> exists k :: NumberPrefix(StripExtension(filename), k))
  {
    var name := StripExtension(filename);
    CleanTitleSpec(name);
    TrackNumberSpec(name);
    UntitledSpec();
  }

  lemma {:induction false} UntitledSpec()
    ensures Trimmed(Untitled) && SingleSpaced(Untitled) && '-' !in Untitled && '_' !in Untitled
  {
    forall i | 0 <= i < |Untitled| ensures SpaceOkAt(Untitled, i) {
      assert !IsSpace(Untitled[i]);
    }
  }
}
