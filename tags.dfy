/** The tag helpers of build/worker/tag-utils.mjs: one normal form for a tag,
    tag lists read from and written to comma-separated text, tags suggested
    from a year and a title, and the search filter over tag text. */
module Tags {
  import opened Wrappers
  import opened Text

  // ---------------------------------------------------------------------------
  // One tag

  /** `normalizeTag`: lower case, trimmed, runs of white space as one space. */
  function NormalizeTag(tag: string): string {
    CollapseSpaces(Trim(Lower(tag)))
  }

  /** The form `NormalizeTag` produces. */
  predicate IsNormalTag(t: string) {
    NoUpper(t) && Trimmed(t) && SingleSpaced(t)
  }

  /** Every result is in normal form, a tag in normal form is its own
      normalisation (so normalising twice is normalising once), and every
      character other than white space comes from the lower-cased tag. */
  lemma {:induction false} NormalizeTagSpec(tag: string)
    ensures IsNormalTag(NormalizeTag(tag))
    ensures NormalizeTag(NormalizeTag(tag)) == NormalizeTag(tag)
    ensures forall c :: c in NormalizeTag(tag) && !IsSpace(c) ==> c in Lower(tag)
  {
    var l := Lower(tag);
    var t := Trim(l);
    var r := CollapseSpaces(t);
    TrimSpec(l);
    CollapseSpacesSpec(t);
    forall c | c in r && !IsSpace(c) ensures c in l && !IsUpper(c) {
      assert c in t;
      var i :| 0 <= i < |l| && l[i] == c;
      assert LowerChar(tag[i]) == c;
    }
    assert NoUpper(r) by {
      forall i | 0 <= i < |r| ensures !IsUpper(r[i]) {
        assert r[i] in r;
        if !IsSpace(r[i]) {
          assert !IsUpper(r[i]);
        }
      }
    }
    NormalFixed(r);
  }

  /** Normalising never introduces a comma. */
  lemma {:induction false} NormalizeNoComma(tag: string)
    requires ',' !in tag
    ensures ',' !in NormalizeTag(tag)
  {
    NormalizeTagSpec(tag);
  }

  /** A tag already in normal form is left unchanged. */
  lemma {:induction false} NormalFixed(t: string)
    requires IsNormalTag(t)
    ensures NormalizeTag(t) == t
  {
    LowerOfLower(t);
    TrimSpec(t);
    CollapseSingleSpaced(t);
  }

  /** A space in front of a non-empty normal tag is removed again. */
  lemma {:induction false} NormalizeLeadingSpace(t: string)
    requires IsNormalTag(t) && t != ""
    ensures NormalizeTag(" " + t) == t
  {
    LowerOfLower(t);
    assert Lower(" " + t) == " " + t;
    assert TrimStart(" " + t) == TrimStart(t);
    TrimSpec(t);
    CollapseSingleSpaced(t);
  }

  // ---------------------------------------------------------------------------
  // Lists of tags

  predicate Distinct(xs: seq<string>) {
    forall i, j :: 0 <= i < j < |xs| ==> xs[i] != xs[j]
  }

  /** `xs.indexOf(x)`: the first position of `x`, or -1. */
  function IndexOf(xs: seq<string>, x: string): (i: int)
    ensures -1 <= i < |xs|
    ensures i == -1 <==> x !in xs
    ensures 0 <= i ==> xs[i] == x && x !in xs[..i]
  {
    if xs == [] then -1
    else if xs[0] == x then 0
    else
      var j := IndexOf(xs[1..], x);
      if j == -1 then -1
      else
        assert xs[..j + 1] == [xs[0]] + xs[1..][..j];
        j + 1
  }

  /** `filter((tag, index, self) => self.indexOf(tag) === index)` over the
      first `n` elements: each element at its first position only. */
  function KeepFirst(xs: seq<string>, n: nat): seq<string>
    requires n <= |xs|
  {
    if n == 0 then []
    else KeepFirst(xs, n - 1) + (if IndexOf(xs, xs[n - 1]) == n - 1 then [xs[n - 1]] else [])
  }

  function Dedupe(xs: seq<string>): seq<string> {
    KeepFirst(xs, |xs|)
  }

  /** `ys` lists its elements in the order in which they first occur in `xs`. */
  predicate FirstOccurrenceOrder(ys: seq<string>, xs: seq<string>) {
    forall i, j :: 0 <= i < j < |ys| ==> IndexOf(xs, ys[i]) < IndexOf(xs, ys[j])
  }

  /** An element of the first `n` elements first occurs before position `n`. */
  lemma {:induction false} IndexOfPrefix(xs: seq<string>, n: nat, x: string)
    requires n <= |xs| && x in xs[..n]
    ensures 0 <= IndexOf(xs, x) < n
  {
    var k :| 0 <= k < n && xs[..n][k] == x;
    assert xs[k] == x;
  }

  lemma {:induction false} KeepFirstSpec(xs: seq<string>, n: nat)
    requires n <= |xs|
    ensures Distinct(KeepFirst(xs, n))
    ensures forall x :: x in KeepFirst(xs, n) <==> x in xs[..n]
  {
    if n > 0 {
      KeepFirstSpec(xs, n - 1);
      var x := xs[n - 1];
      assert xs[..n] == xs[..n - 1] + [x];
      if IndexOf(xs, x) != n - 1 {
        assert xs[IndexOf(xs, x)] == x;
        assert x in xs[..n - 1];
      }
    }
  }

  /** The first-occurrence filter keeps the order of first occurrences. */
  lemma {:induction false} KeepFirstOrder(xs: seq<string>, n: nat)
    requires n <= |xs|
    ensures FirstOccurrenceOrder(KeepFirst(xs, n), xs)
  {
    if n > 0 {
      KeepFirstOrder(xs, n - 1);
      var x := xs[n - 1];
      var prev := KeepFirst(xs, n - 1);
      if IndexOf(xs, x) == n - 1 {
        KeepFirstSpec(xs, n - 1);
        forall k | 0 <= k < |prev| ensures IndexOf(xs, prev[k]) < n - 1 {
          assert prev[k] in prev;
          IndexOfPrefix(xs, n - 1, prev[k]);
        }
        OrderSnoc(prev, x, xs);
      }
    }
  }

  /** Appending an element that first occurs after all the others keeps the order. */
  lemma {:induction false} OrderSnoc(ys: seq<string>, x: string, xs: seq<string>)
    requires FirstOccurrenceOrder(ys, xs)
    requires forall k :: 0 <= k < |ys| ==> IndexOf(xs, ys[k]) < IndexOf(xs, x)
    ensures FirstOccurrenceOrder(ys + [x], xs)
  {
    var zs := ys + [x];
    forall i, j | 0 <= i < j < |zs| ensures IndexOf(xs, zs[i]) < IndexOf(xs, zs[j]) {
      assert zs[i] == ys[i];
      if j < |ys| {
        assert zs[j] == ys[j];
      }
    }
  }

  /** Removing duplicates leaves a list without repeats holding the same tags
      in the order of their first occurrences, and leaves a list that has no
      repeats as it is. */
  lemma {:induction false} DedupeSpec(xs: seq<string>)
    ensures Distinct(Dedupe(xs))
    ensures forall x :: x in Dedupe(xs) <==> x in xs
    ensures Distinct(xs) ==> Dedupe(xs) == xs
    ensures FirstOccurrenceOrder(Dedupe(xs), xs)
  {
    KeepFirstSpec(xs, |xs|);
    KeepFirstOrder(xs, |xs|);
    assert xs[..|xs|] == xs;
    if Distinct(xs) {
      DedupeDistinct(xs, |xs|);
    }
  }

  lemma {:induction false} DedupeDistinct(xs: seq<string>, n: nat)
    requires n <= |xs| && Distinct(xs)
    ensures KeepFirst(xs, n) == xs[..n]
  {
    if n > 0 {
      DedupeDistinct(xs, n - 1);
      assert xs[..n] == xs[..n - 1] + [xs[n - 1]];
    }
  }

  /** `filter(tag => tag.length > 0)` */
  function NonEmptyOnly(xs: seq<string>): (r: seq<string>)
    ensures forall x :: x in r <==> x in xs && x != ""
    ensures (forall x <- xs :: x != "") ==> r == xs
  {
    if xs == [] then []
    else
      assert xs[0] in xs;
      assert forall x :: x in xs <==> x == xs[0] || x in xs[1..];
      if xs[0] == "" then NonEmptyOnly(xs[1..])
      else [xs[0]] + NonEmptyOnly(xs[1..])
  }

  /** `map(tag => normalizeTag(tag))` */
  function NormalizeAll(xs: seq<string>): (r: seq<string>)
    ensures |r| == |xs|
  {
    seq(|xs|, i requires 0 <= i < |xs| => NormalizeTag(xs[i]))
  }

  /** The normalise, drop-empty, drop-repeats pipeline both directions share. */
  function Canonical(xs: seq<string>): seq<string> {
    Dedupe(NonEmptyOnly(NormalizeAll(xs)))
  }

  predicate CanonicalList(ts: seq<string>) {
    Distinct(ts) && forall t <- ts :: t != "" && IsNormalTag(t)
  }

  /** Normalising each tag gives tags in normal form: exactly the
      normalisations of the inputs. */
  lemma {:induction false} NormalizeAllSpec(xs: seq<string>)
    ensures forall t <- NormalizeAll(xs) :: IsNormalTag(t)
    ensures forall t :: t in NormalizeAll(xs) <==> exists x <- xs :: NormalizeTag(x) == t
  {
    var n := NormalizeAll(xs);
    forall t | t in n ensures IsNormalTag(t) && exists x <- xs :: NormalizeTag(x) == t {
      var i :| 0 <= i < |n| && n[i] == t;
      NormalizeTagSpec(xs[i]);
      assert xs[i] in xs;
    }
    forall t | exists x <- xs :: NormalizeTag(x) == t ensures t in n {
      var x :| x in xs && NormalizeTag(x) == t;
      var i :| 0 <= i < |xs| && xs[i] == x;
      assert n[i] == t;
    }
  }

  /** The pipeline yields distinct, non-empty tags in normal form: exactly the
      non-empty normalisations of the inputs. */
  lemma {:induction false} CanonicalSpec(xs: seq<string>)
    ensures CanonicalList(Canonical(xs))
    ensures forall t :: t in Canonical(xs) <==> t != "" && exists x <- xs :: NormalizeTag(x) == t
  {
    NormalizeAllSpec(xs);
    DedupeSpec(NonEmptyOnly(NormalizeAll(xs)));
  }

  /** A list already in that form passes through unchanged. */
  lemma {:induction false} CanonicalFixed(ts: seq<string>)
    requires CanonicalList(ts)
    ensures Canonical(ts) == ts
  {
    forall i | 0 <= i < |ts| ensures NormalizeAll(ts)[i] == ts[i] {
      NormalFixed(ts[i]);
    }
    assert NormalizeAll(ts) == ts;
    DedupeSpec(ts);
  }

  // ---------------------------------------------------------------------------
  // parseTags and stringifyTags

  /** `parseTags`; `None` is an argument that is not a string. */
  function ParseTags(tagString: Option<string>): seq<string> {
    if tagString.None? || tagString.value == "" then []
    else Canonical(Split(tagString.value, ','))
  }

  /** `stringifyTags`; `None` is an argument that is not an array. */
  function StringifyTags(tags: Option<seq<string>>): string {
    if tags.None? then "" else Join(Canonical(tags.value), ", ")
  }

  /** Parsed tags are distinct, non-empty, normal and free of commas: exactly
      the non-empty normalisations of the comma-separated pieces, in the order
      of their first occurrences. */
  lemma {:induction false} ParseTagsSpec(s: string)
    ensures CanonicalList(ParseTags(Some(s)))
    ensures forall t <- ParseTags(Some(s)) :: ',' !in t
    ensures forall t :: t in ParseTags(Some(s)) <==> s != "" && t != "" && exists p <- Split(s, ',') :: NormalizeTag(p) == t
    ensures FirstOccurrenceOrder(ParseTags(Some(s)), NonEmptyOnly(NormalizeAll(Split(s, ','))))
  {
    if s != "" {
      DedupeSpec(NonEmptyOnly(NormalizeAll(Split(s, ','))));
      CanonicalSpec(Split(s, ','));
      CanonicalCommaFree(Split(s, ','));
    }
  }

  /** The pipeline keeps comma-free tags comma-free. */
  lemma {:induction false} CanonicalCommaFree(xs: seq<string>)
    requires forall x <- xs :: ',' !in x
    ensures forall t <- Canonical(xs) :: ',' !in t
  {
    CanonicalSpec(xs);
    forall t | t in Canonical(xs) ensures ',' !in t {
      var x :| x in xs && NormalizeTag(x) == t;
      NormalizeNoComma(x);
    }
  }

  /** `" " + t` for every tag but the first: the pieces between the commas of
      `Join(ts, ", ")`. */
  function Spaced(ts: seq<string>, lead: string): (r: seq<string>)
    ensures |r| == |ts|
  {
    seq(|ts|, i requires 0 <= i < |ts| => (if i == 0 then lead else " ") + ts[i])
  }

  lemma {:induction false} JoinSpaced(ts: seq<string>, lead: string)
    requires |ts| >= 1
    ensures lead + Join(ts, ", ") == Join(Spaced(ts, lead), ",")
    decreases |ts|
  {
    var sp := Spaced(ts, lead);
    if |ts| > 1 {
      JoinSpaced(ts[1..], " ");
      assert sp[1..] == Spaced(ts[1..], " ");
      assert lead + Join(ts, ", ") == (lead + ts[0]) + "," + (" " + Join(ts[1..], ", "));
    }
  }

  /** Writing a list of comma-free tags and reading it back gives the list
      `stringifyTags` wrote: the normal, non-empty, distinct tags in order. */
  lemma {:induction false} StringifyParseRoundTrip(ts: seq<string>)
    requires forall t <- ts :: ',' !in t
    ensures ParseTags(Some(StringifyTags(Some(ts)))) == Canonical(ts)
  {
    var c := Canonical(ts);
    CanonicalSpec(ts);
    CanonicalCommaFree(ts);
    if c != [] {
      ReadBackJoined(c);
    }
  }

  lemma {:induction false} ReadBackJoined(c: seq<string>)
    requires c != [] && CanonicalList(c)
    requires forall t <- c :: ',' !in t
    ensures ParseTags(Some(Join(c, ", "))) == c
  {
    var joined := Join(c, ", ");
    var sp := Spaced(c, "");
    assert Split(joined, ',') == sp by {
      JoinSpaced(c, "");
      assert "" + joined == joined;
      SpacedCommaFree(c);
      SplitJoin(sp, ',');
    }
    assert c[0] in c;
    JoinNonEmpty(c);
    assert ParseTags(Some(joined)) == Canonical(sp);
    assert Canonical(sp) == Dedupe(NonEmptyOnly(c)) by {
      NormalizeSpaced(c);
    }
    assert Dedupe(NonEmptyOnly(c)) == c by {
      NormalizeSpaced(c);
      DedupeSpec(c);
    }
  }

  lemma {:induction false} SpacedCommaFree(c: seq<string>)
    requires forall t <- c :: ',' !in t
    ensures forall p <- Spaced(c, "") :: ',' !in p
  {
    var sp := Spaced(c, "");
    forall p | p in sp ensures ',' !in p {
      var i :| 0 <= i < |sp| && sp[i] == p;
      assert c[i] in c;
    }
  }

  /** Normalising the pieces between the commas gives the tags back. */
  lemma {:induction false} NormalizeSpaced(c: seq<string>)
    requires CanonicalList(c)
    ensures NormalizeAll(Spaced(c, "")) == c
    ensures NonEmptyOnly(c) == c
  {
    var sp := Spaced(c, "");
    forall i | 0 <= i < |sp| ensures NormalizeAll(sp)[i] == c[i] {
      assert c[i] in c;
      if i == 0 {
        assert sp[0] == c[0];
        NormalFixed(c[0]);
      } else {
        NormalizeLeadingSpace(c[i]);
      }
    }
  }

  lemma {:induction false} JoinNonEmpty(c: seq<string>)
    requires |c| >= 1 && c[0] != ""
    ensures Join(c, ", ") != ""
  {
    if |c| > 1 {
      assert Join(c, ", ")[0] == c[0][0];
    }
  }

  /** Parsing what was written from a parsed list gives that list again. */
  lemma {:induction false} ParseStringifyParse(s: string)
    ensures ParseTags(Some(StringifyTags(Some(ParseTags(Some(s)))))) == ParseTags(Some(s))
  {
    ParseTagsSpec(s);
    StringifyParseRoundTrip(ParseTags(Some(s)));
    CanonicalFixed(ParseTags(Some(s)));
  }

  // ---------------------------------------------------------------------------
  // suggestTags

  /** The decade tag for a parsed year. */
  function DecadeTag(year: int): Option<string> {
    if 1950 <= year < 1960 then Some("50s")
    else if 1960 <= year < 1970 then Some("60s")
    else if 1970 <= year < 1980 then Some("70s")
    else if 1980 <= year < 1990 then Some("80s")
    else if 1990 <= year < 2000 then Some("90s")
    else if 2000 <= year < 2010 then Some("2000s")
    else if 2010 <= year < 2020 then Some("2010s")
    else if 2020 <= year then Some("2020s")
    else None
  }

  /** Years from 1950 on get a tag, earlier ones none; two years share a tag
      exactly when they share a decade, every year from 2020 on sharing one. */
  lemma {:induction false} DecadeTagSpec(a: int, b: int)
    ensures DecadeTag(a).Some? <==> a >= 1950
    ensures a >= 1950 && b >= 1950 ==>
              (DecadeTag(a) == DecadeTag(b) <==> a / 10 == b / 10 || (a >= 2020 && b >= 2020))
  {
  }

  /** `\w`: the characters a regular-expression word boundary separates. */
  predicate IsWordChar(c: char) {
    'a' <= c <= 'z' || 'A' <= c <= 'Z' || IsDigit(c) || c == '_'
  }

  /** `/\bw\b/i` matches at `k`: `w` (lower case, word characters only) occurs
      there ignoring case, with no word character right before or after. */
  predicate WordAt(s: string, w: string, k: int) {
    OccursAt(Lower(s), w, k)
    && (k == 0 || !IsWordChar(s[k - 1]))
    && (k + |w| == |s| || !IsWordChar(s[k + |w|]))
  }

  predicate ContainsWord(s: string, w: string) {
    exists k :: 0 <= k <= |s| && WordAt(s, w, k)
  }

  /** The position a suggestion takes: the decade, then live, remix, acoustic. */
  function Rank(tag: string): nat {
    if tag == "live" then 1 else if tag == "remix" then 2 else if tag == "acoustic" then 3 else 0
  }

  /** Each suggestion ranks below every later one. */
  predicate Ranked(r: seq<string>) {
    forall i, j :: 0 <= i < j < |r| ==> Rank(r[i]) < Rank(r[j])
  }

  /** `if (test) tags.push(tag)` */
  function Push(r: seq<string>, test: bool, tag: string): seq<string> {
    if test then r + [tag] else r
  }

  lemma {:induction false} PushSpec(r: seq<string>, test: bool, tag: string)
    requires Ranked(r) && forall x <- r :: Rank(x) < Rank(tag)
    ensures Ranked(Push(r, test, tag))
    ensures forall x :: x in Push(r, test, tag) <==> x in r || (test && x == tag)
  {
    if test {
      var s := r + [tag];
      forall i, j | 0 <= i < j < |s| ensures Rank(s[i]) < Rank(s[j]) {
        assert s[i] in r;
        if j < |r| {
          assert s[j] == r[j];
        }
      }
    }
  }

  /** The suggestions pushed in order: the decade tag if any, then each
      keyword tag whose test passed. */
  function Suggestions(decade: Option<string>, live: bool, remix: bool, acoustic: bool): seq<string> {
    var r := if decade.Some? then [decade.value] else [];
    Push(Push(Push(r, live, "live"), remix, "remix"), acoustic, "acoustic")
  }

  lemma {:induction false} SuggestionsSpec(decade: Option<string>, live: bool, remix: bool, acoustic: bool)
    requires decade.Some? ==> Rank(decade.value) == 0
    ensures var r := Suggestions(decade, live, remix, acoustic);
            && Ranked(r)
            && ("live" in r <==> live) && ("remix" in r <==> remix) && ("acoustic" in r <==> acoustic)
            && (forall t :: t in r && Rank(t) == 0 <==> decade == Some(t))
  {
    SuggestionsMembers(decade, live, remix, acoustic);
  }

  lemma {:induction false} SuggestionsMembers(decade: Option<string>, live: bool, remix: bool, acoustic: bool)
    requires decade.Some? ==> Rank(decade.value) == 0
    ensures var r := Suggestions(decade, live, remix, acoustic);
            && Ranked(r)
            && forall x :: x in r <==> decade == Some(x) || (live && x == "live") || (remix && x == "remix") || (acoustic && x == "acoustic")
  {
    var r0 := if decade.Some? then [decade.value] else [];
    assert forall x :: x in r0 <==> decade == Some(x);
    PushSpec(r0, live, "live");
    var r1 := Push(r0, live, "live");
    PushSpec(r1, remix, "remix");
    PushSpec(Push(r1, remix, "remix"), acoustic, "acoustic");
  }

  /** `suggestTags`. `year` is `parseInt(metadata.year)` when `metadata.year`
      is truthy and parses to a number, and `None` otherwise; `title` is
      `metadata.title` when it is a string. */
  function SuggestTags(year: Option<int>, title: Option<string>): seq<string> {
    var decade := if year.Some? then DecadeTag(year.value) else None;
    var hasTitle := title.Some? && title.value != "";
    Suggestions(decade,
                hasTitle && ContainsWord(title.value, "live"),
                hasTitle && (ContainsWord(title.value, "remix") || ContainsWord(title.value, "mix")
                             || ContainsWord(title.value, "edit")),
                hasTitle && ContainsWord(title.value, "acoustic"))
  }

  /** At most one suggestion of each kind, in the fixed order, each present
      exactly when its test passes. */
  lemma {:induction false} SuggestTagsSpec(year: Option<int>, title: Option<string>)
    ensures var r := SuggestTags(year, title);
            var hasTitle := title.Some? && title.value != "";
            && Ranked(r)
            && ("live" in r <==> hasTitle && ContainsWord(title.value, "live"))
            && ("remix" in r <==> hasTitle && (ContainsWord(title.value, "remix") || ContainsWord(title.value, "mix")
                                               || ContainsWord(title.value, "edit")))
            && ("acoustic" in r <==> hasTitle && ContainsWord(title.value, "acoustic"))
            && (forall t :: t in r && Rank(t) == 0 <==> year.Some? && DecadeTag(year.value) == Some(t))
  {
    var decade := if year.Some? then DecadeTag(year.value) else None;
    var hasTitle := title.Some? && title.value != "";
    SuggestionsSpec(decade,
                    hasTitle && ContainsWord(title.value, "live"),
                    hasTitle && (ContainsWord(title.value, "remix") || ContainsWord(title.value, "mix")
                                 || ContainsWord(title.value, "edit")),
                    hasTitle && ContainsWord(title.value, "acoustic"));
  }

  // ---------------------------------------------------------------------------
  // matchTags

  predicate NoSpace(s: string) {
    forall i :: 0 <= i < |s| ==> !IsSpace(s[i])
  }

  /** `split(/\s+/)`: the pieces between maximal runs of white space. Joined
      with single spaces they give `s` with each run collapsed to one space. */
  function SplitOnSpace(s: string): (parts: seq<string>)
    ensures |parts| >= 1
    ensures Join(parts, " ") == CollapseSpaces(s)
    decreases |s|
  {
    if s == [] then [""]
    else if IsSpace(s[0]) then
      var rest := SplitOnSpace(TrimStart(s[1..]));
      assert ([""] + rest)[1..] == rest;
      [""] + rest
    else
      var rest := SplitOnSpace(s[1..]);
      JoinExtendFirst([s[0]], rest, " ");
      [[s[0]] + rest[0]] + rest[1..]
  }

  /** No piece of `split(/\s+/)` holds white space; with the joined form above
      this fixes the pieces: the cuts are exactly the runs of white space. */
  lemma {:induction false} SplitOnSpacePieces(s: string)
    ensures forall p <- SplitOnSpace(s) :: NoSpace(p)
    decreases |s|
  {
    if s != [] {
      if IsSpace(s[0]) {
        var rest := SplitOnSpace(TrimStart(s[1..]));
        SplitOnSpacePieces(TrimStart(s[1..]));
        assert SplitOnSpace(s) == [""] + rest;
      } else {
        var rest := SplitOnSpace(s[1..]);
        SplitOnSpacePieces(s[1..]);
        assert rest[0] in rest;
        NoSpaceCons(s[0], rest[0]);
        assert forall p <- rest[1..] :: p in rest;
      }
    }
  }

  lemma {:induction false} NoSpaceCons(c: char, p: string)
    requires !IsSpace(c) && NoSpace(p)
    ensures NoSpace([c] + p)
  {
  }

  /** The characters of `s` that are not white space, in order. */
  function RemoveSpaces(s: string): string {
    if s == [] then [] else (if IsSpace(s[0]) then [] else [s[0]]) + RemoveSpaces(s[1..])
  }

  function Concat(parts: seq<string>): string {
    if parts == [] then [] else parts[0] + Concat(parts[1..])
  }

  lemma {:induction false} RemoveLeadingSpaces(s: string)
    ensures RemoveSpaces(TrimStart(s)) == RemoveSpaces(s)
  {
    if s != [] && IsSpace(s[0]) {
      RemoveLeadingSpaces(s[1..]);
    }
  }

  lemma {:induction false} ConcatSplitOnSpace(s: string)
    ensures Concat(SplitOnSpace(s)) == RemoveSpaces(s)
    decreases |s|
  {
    if s != [] {
      if IsSpace(s[0]) {
        ConcatSplitOnSpace(TrimStart(s[1..]));
        RemoveLeadingSpaces(s[1..]);
      } else {
        var rest := SplitOnSpace(s[1..]);
        ConcatSplitOnSpace(s[1..]);
        assert rest == [rest[0]] + rest[1..];
      }
    }
  }

  lemma {:induction false} ConcatNonEmpty(xs: seq<string>)
    ensures Concat(NonEmptyOnly(xs)) == Concat(xs)
  {
    if xs != [] {
      ConcatNonEmpty(xs[1..]);
    }
  }

  /** `searchQuery.toLowerCase().split(/\s+/).filter(term => term.length > 0)` */
  function SearchTerms(searchQuery: string): seq<string> {
    NonEmptyOnly(SplitOnSpace(Lower(searchQuery)))
  }

  /** Dropping the empty pieces of `split(/\s+/)` leaves the words of `s`:
      joined by single spaces they are `s` collapsed and trimmed. */
  lemma {:induction false} WordsJoin(s: string)
    ensures Join(NonEmptyOnly(SplitOnSpace(s)), " ") == Trim(CollapseSpaces(s))
    decreases |s|, 2
  {
    if s != [] {
      if IsSpace(s[0]) {
        var t := TrimStart(s[1..]);
        var rest := SplitOnSpace(t);
        assert ([""] + rest)[1..] == rest;
        WordsJoin(t);
        assert ([' '] + CollapseSpaces(t))[1..] == CollapseSpaces(t);
      } else {
        FirstWordJoin([s[0]], s[1..]);
        assert [s[0]] + s[1..] == s;
        TrimEndCons(s[0], CollapseSpaces(s[1..]));
      }
    }
  }

  /** A non-empty first piece survives the empty-piece filter. */
  lemma {:induction false} NonEmptyCons(w: string, rest: seq<string>)
    requires w != ""
    ensures NonEmptyOnly([w] + rest) == [w] + NonEmptyOnly(rest)
  {
    assert ([w] + rest)[1..] == rest;
  }

  /** Joining a first piece in front of the others. */
  lemma {:induction false} JoinCons(w: string, words: seq<string>, sep: string)
    ensures Join([w] + words, sep) == if words == [] then w else w + sep + Join(words, sep)
  {
    assert ([w] + words)[1..] == words;
  }

  /** Joined non-empty pieces are empty exactly when there are none. */
  lemma {:induction false} JoinEmpty(words: seq<string>, sep: string)
    requires forall x <- words :: x != ""
    ensures Join(words, sep) == "" <==> words == []
  {
    if words != [] {
      assert words[0] in words;
      JoinNonEmptyFirst(words, sep);
    }
  }

  lemma {:induction false} JoinNonEmptyFirst(words: seq<string>, sep: string)
    requires |words| >= 1 && words[0] != ""
    ensures |Join(words, sep)| >= |words[0]|
  {
    if |words| > 1 {
      JoinCons(words[0], words[1..], sep);
      assert [words[0]] + words[1..] == words;
    }
  }

  /** The words of `w + u`, for a non-empty `w` that ends a word only where `u`
      begins with white space: `w` followed by `u` collapsed and trimmed at its end. */
  lemma {:induction false} FirstWordJoin(w: string, u: string)
    requires w != ""
    ensures var r := SplitOnSpace(u);
            Join(NonEmptyOnly([w + r[0]] + r[1..]), " ") == w + TrimEnd(CollapseSpaces(u))
    decreases |u|, 1
  {
    var r := SplitOnSpace(u);
    if u == [] {
      assert r == [""];
      assert w + r[0] == w;
      assert [w + r[0]] + r[1..] == [w] + [];
      NonEmptyCons(w, []);
      JoinCons(w, [], " ");
    } else if IsSpace(u[0]) {
      FirstWordThenSpace(w, u);
    } else {
      FirstWordGoesOn(w, u);
    }
  }

  /** `FirstWordJoin` where `u` begins with a word character: the word `w` goes on. */
  lemma {:induction false} FirstWordGoesOn(w: string, u: string)
    requires w != "" && u != [] && !IsSpace(u[0])
    ensures var r := SplitOnSpace(u);
            Join(NonEmptyOnly([w + r[0]] + r[1..]), " ") == w + TrimEnd(CollapseSpaces(u))
    decreases |u|, 0
  {
    var q := SplitOnSpace(u[1..]);
    assert SplitOnSpace(u) == [[u[0]] + q[0]] + q[1..];
    FirstWordJoin(w + [u[0]], u[1..]);
    assert TrimEnd(CollapseSpaces(u)) == [u[0]] + TrimEnd(CollapseSpaces(u[1..])) by {
      TrimEndCons(u[0], CollapseSpaces(u[1..]));
      assert CollapseSpaces(u) == [u[0]] + CollapseSpaces(u[1..]);
    }
    ExtendFirstWord(w, u[0], SplitOnSpace(u), q, TrimEnd(CollapseSpaces(u[1..])), TrimEnd(CollapseSpaces(u)));
  }

  /** The bookkeeping step of `FirstWordGoesOn`, on plain sequences. */
  lemma {:induction false} ExtendFirstWord(w: string, d: char, r: seq<string>, q: seq<string>, tail: string, t: string)
    requires |q| >= 1 && r == [[d] + q[0]] + q[1..]
    requires Join(NonEmptyOnly([(w + [d]) + q[0]] + q[1..]), " ") == (w + [d]) + tail
    requires t == [d] + tail
    ensures Join(NonEmptyOnly([w + r[0]] + r[1..]), " ") == w + t
  {
    assert r[1..] == q[1..];
    assert w + r[0] == (w + [d]) + q[0];
    assert (w + [d]) + tail == w + t;
  }

  /** `FirstWordJoin` where `u` begins with white space: the word `w` ends there. */
  lemma {:induction false} FirstWordThenSpace(w: string, u: string)
    requires w != "" && u != [] && IsSpace(u[0])
    ensures var r := SplitOnSpace(u);
            Join(NonEmptyOnly([w + r[0]] + r[1..]), " ") == w + TrimEnd(CollapseSpaces(u))
    decreases |u|, 0
  {
    var t := TrimStart(u[1..]);
    var rest := SplitOnSpace(t);
    assert SplitOnSpace(u) == [""] + rest;
    assert Join(NonEmptyOnly(rest), " ") == TrimEnd(CollapseSpaces(t)) by {
      WordsJoin(t);
      assert TrimStart(CollapseSpaces(t)) == CollapseSpaces(t);
    }
    assert TrimEnd(CollapseSpaces(u)) == EndWord(TrimEnd(CollapseSpaces(t))) by {
      assert CollapseSpaces(u) == [' '] + CollapseSpaces(t);
      TrimEndSpace(CollapseSpaces(t));
    }
    EndFirstWord(w, SplitOnSpace(u), rest, TrimEnd(CollapseSpaces(t)), TrimEnd(CollapseSpaces(u)));
  }

  /** What follows a word that ends before `tail`: nothing, or a space and `tail`. */
  function EndWord(tail: string): string {
    if tail == [] then [] else [' '] + tail
  }

  /** The bookkeeping step of `FirstWordThenSpace`, on plain sequences. */
  lemma {:induction false} EndFirstWord(w: string, r: seq<string>, rest: seq<string>, tail: string, t: string)
    requires w != "" && r == [""] + rest
    requires Join(NonEmptyOnly(rest), " ") == tail
    requires t == EndWord(tail)
    ensures Join(NonEmptyOnly([w + r[0]] + r[1..]), " ") == w + t
  {
    var words := NonEmptyOnly(rest);
    assert [w + r[0]] + r[1..] == [w] + rest by {
      assert r[1..] == rest;
      assert w + r[0] == w;
    }
    NonEmptyCons(w, rest);
    JoinCons(w, words, " ");
    JoinEmpty(words, " ");
  }

  /** The search terms are the query's words: non-empty, free of white space,
      and, joined by single spaces, the lower-cased query with its white space
      collapsed and trimmed; together they hold the query's other characters. */
  lemma {:induction false} SearchTermsSpec(searchQuery: string)
    ensures forall t <- SearchTerms(searchQuery) :: t != "" && NoSpace(t)
    ensures Join(SearchTerms(searchQuery), " ") == Trim(CollapseSpaces(Lower(searchQuery)))
    ensures Concat(SearchTerms(searchQuery)) == RemoveSpaces(Lower(searchQuery))
  {
    SplitOnSpacePieces(Lower(searchQuery));
    ConcatSplitOnSpace(Lower(searchQuery));
    ConcatNonEmpty(SplitOnSpace(Lower(searchQuery)));
    WordsJoin(Lower(searchQuery));
  }

  /** `tags.some(tag => tag.includes(term))` */
  function AnyTagIncludes(tags: seq<string>, term: string): (r: bool)
    ensures r <==> exists tag <- tags :: Includes(tag, term)
  {
    if tags == [] then false
    else
      assert tags[0] in tags;
      assert forall tag :: tag in tags <==> tag == tags[0] || tag in tags[1..];
      Includes(tags[0], term) || AnyTagIncludes(tags[1..], term)
  }

  /** Some term occurs inside some tag. */
  predicate SomeTermInSomeTag(terms: seq<string>, tags: seq<string>) {
    exists term <- terms, tag <- tags :: Includes(tag, term)
  }

  /** `searchTerms.some(term => tags.some(...))` */
  function AnyTermMatches(terms: seq<string>, tags: seq<string>): (r: bool)
    ensures r <==> SomeTermInSomeTag(terms, tags)
  {
    if terms == [] then false
    else
      assert forall term :: term in terms <==> term == terms[0] || term in terms[1..];
      AnyTagIncludes(tags, terms[0]) || AnyTermMatches(terms[1..], tags)
  }

  /** `matchTags`: some word of the query occurs inside some parsed tag. */
  function MatchTags(searchQuery: string, tagString: string): (r: bool)
    ensures r <==> searchQuery != "" && tagString != "" &&
                   SomeTermInSomeTag(SearchTerms(searchQuery), ParseTags(Some(tagString)))
  {
    if searchQuery == "" || tagString == "" then false
    else AnyTermMatches(SearchTerms(searchQuery), ParseTags(Some(tagString)))
  }

  /** Searching for a stored one-word tag finds it. */
  lemma {:induction false} TagMatchesItself(tag: string, tagString: string)
    requires tag in ParseTags(Some(tagString)) && NoSpace(tag)
    ensures MatchTags(tag, tagString)
  {
    ParseTagsSpec(tagString);
    LowerOfLower(tag);
    assert SplitOnSpace(tag) == [tag] by {
      SplitOnSpaceNoSpace(tag);
    }
    assert SearchTerms(tag) == [tag];
    assert OccursAt(tag, tag, 0);
  }

  lemma {:induction false} SplitOnSpaceNoSpace(s: string)
    requires NoSpace(s)
    ensures SplitOnSpace(s) == [s]
  {
    if s != [] {
      SplitOnSpaceNoSpace(s[1..]);
      assert [s[0]] + s[1..] == s;
    }
  }
}
