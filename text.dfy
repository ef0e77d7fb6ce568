/** The string operations the source takes from JavaScript's `String` and
    `RegExp`: white space as `\s` and `trim()` see it, ASCII case mapping,
    `split`, `join`, `includes`, and replacing runs of white space. */
module Text {

  /** ECMAScript WhiteSpace or LineTerminator: what `\s` matches and `trim()` removes. */
  predicate IsSpace(c: char) {
    var n := c as int;
    n == 0x09 || n == 0x0A || n == 0x0B || n == 0x0C || n == 0x0D || n == 0x20
    || n == 0xA0 || n == 0x1680 || (0x2000 <= n <= 0x200A) || n == 0x2028 || n == 0x2029
    || n == 0x202F || n == 0x205F || n == 0x3000 || n == 0xFEFF
  }

  predicate IsUpper(c: char) {
    'A' <= c <= 'Z'
  }

  predicate IsDigit(c: char) {
    '0' <= c <= '9'
  }

  /** `toLowerCase()` on one character, for the ASCII letters. */
  function LowerChar(c: char): (d: char)
    ensures !IsUpper(d)
    ensures IsSpace(d) <==> IsSpace(c)
    ensures d == c <==> !IsUpper(c)
  {
    if IsUpper(c) then (c as int + 32) as char else c
  }

  /** `toLowerCase()` */
  function Lower(s: string): (r: string)
    ensures |r| == |s|
  {
    seq(|s|, i requires 0 <= i < |s| => LowerChar(s[i]))
  }

  predicate NoUpper(s: string) {
    forall i :: 0 <= i < |s| ==> !IsUpper(s[i])
  }

  lemma {:induction false} LowerOfLower(s: string)
    requires NoUpper(s)
    ensures Lower(s) == s
  {
  }

  /** The white space at the front of `s` removed (`trimStart()`). */
  function TrimStart(s: string): (r: string)
    ensures |r| <= |s|
    ensures r == [] || !IsSpace(r[0])
    ensures forall i :: 0 <= i < |s| - |r| ==> IsSpace(s[i])
  {
    if s != [] && IsSpace(s[0]) then TrimStart(s[1..]) else s
  }

  /** What `trimStart()` leaves is the end of `s`. */
  lemma {:induction false} TrimStartSuffix(s: string)
    ensures TrimStart(s) == s[|s| - |TrimStart(s)|..]
  {
    if s != [] && IsSpace(s[0]) {
      TrimStartSuffix(s[1..]);
    }
  }

  /** The white space at the back of `s` removed (`trimEnd()`). */
  function TrimEnd(s: string): (r: string)
    ensures |r| <= |s| && r == s[..|r|]
    ensures r == [] || !IsSpace(r[|r| - 1])
    ensures forall i :: |r| <= i < |s| ==> IsSpace(s[i])
  {
    if s != [] && IsSpace(s[|s| - 1]) then TrimEnd(s[..|s| - 1]) else s
  }

  /** `trim()` */
  function Trim(s: string): string {
    TrimEnd(TrimStart(s))
  }

  /** `trimEnd()` is determined by what it promises: the longest prefix that
      does not end with white space and leaves only white space behind. */
  lemma {:induction false} TrimEndUnique(s: string, r: string)
    requires |r| <= |s| && r == s[..|r|]
    requires r == [] || !IsSpace(r[|r| - 1])
    requires forall i :: |r| <= i < |s| ==> IsSpace(s[i])
    ensures TrimEnd(s) == r
  {
  }

  /** A character that is not white space stays in front of `trimEnd()`. */
  lemma {:induction false} TrimEndCons(c: char, s: string)
    requires !IsSpace(c)
    ensures TrimEnd([c] + s) == [c] + TrimEnd(s)
  {
    var t := TrimEnd(s);
    assert ([c] + s)[..|t| + 1] == [c] + s[..|t|];
    TrimEndUnique([c] + s, [c] + t);
  }

  /** A space in front is kept by `trimEnd()` unless nothing else is left. */
  lemma {:induction false} TrimEndSpace(s: string)
    ensures TrimEnd([' '] + s) == if TrimEnd(s) == [] then [] else [' '] + TrimEnd(s)
  {
    var t := TrimEnd(s);
    if t == [] {
      TrimEndUnique([' '] + s, []);
    } else {
      assert ([' '] + s)[..|t| + 1] == [' '] + s[..|t|];
      TrimEndUnique([' '] + s, [' '] + t);
    }
  }

  /** Neither the first nor the last character is white space. */
  predicate Trimmed(s: string) {
    s == [] || (!IsSpace(s[0]) && !IsSpace(s[|s| - 1]))
  }

  /** At position `i`, white space is a plain space not followed by more white space. */
  predicate SpaceOkAt(s: string, i: nat)
    requires i < |s|
  {
    IsSpace(s[i]) ==> s[i] == ' ' && (i + 1 < |s| ==> !IsSpace(s[i + 1]))
  }

  /** The only white space is the plain space, never two in a row. */
  predicate SingleSpaced(s: string) {
    forall i :: 0 <= i < |s| ==> SpaceOkAt(s, i)
  }

  lemma {:induction false} SingleSpacedCons(c: char, s: string)
    requires SingleSpaced(s)
    requires IsSpace(c) ==> c == ' ' && (s == [] || !IsSpace(s[0]))
    ensures SingleSpaced([c] + s)
  {
    var t := [c] + s;
    forall i | 0 <= i < |t| ensures SpaceOkAt(t, i) {
      if i > 0 {
        assert SpaceOkAt(s, i - 1);
        assert t[i] == s[i - 1];
        if i + 1 < |t| {
          assert t[i + 1] == s[i];
        }
      }
    }
  }

  lemma {:induction false} SingleSpacedTail(s: string)
    requires s != [] && SingleSpaced(s)
    ensures SingleSpaced(s[1..])
  {
    var t := s[1..];
    forall i | 0 <= i < |t| ensures SpaceOkAt(t, i) {
      assert SpaceOkAt(s, i + 1);
    }
  }

  /** Any piece of a single-spaced string is single-spaced. */
  lemma {:induction false} SingleSpacedSlice(s: string, a: nat, b: nat)
    requires a <= b <= |s| && SingleSpaced(s)
    ensures SingleSpaced(s[a..b])
  {
    var t := s[a..b];
    forall i | 0 <= i < |t| ensures SpaceOkAt(t, i) {
      assert SpaceOkAt(s, a + i);
    }
  }

  /** `trim()` keeps a string single-spaced. */
  lemma {:induction false} SingleSpacedTrim(s: string)
    requires SingleSpaced(s)
    ensures SingleSpaced(Trim(s))
  {
    var t := TrimStart(s);
    TrimStartSuffix(s);
    SingleSpacedSlice(s, |s| - |t|, |s|);
    assert t == s[|s| - |t|..|s|];
    SingleSpacedSlice(t, 0, |TrimEnd(t)|);
  }

  /** `trim()` removes white space at both ends and keeps only characters of
      `s`; a string with no white space at its ends is left unchanged. */
  lemma {:induction false} TrimSpec(s: string)
    ensures Trimmed(Trim(s))
    ensures forall c :: c in Trim(s) ==> c in s
    ensures Trimmed(s) ==> Trim(s) == s
  {
    var t := TrimStart(s);
    var r := TrimEnd(t);
    TrimStartSuffix(s);
    if r != [] {
      assert r[0] == t[0];
    }
  }

  /** `replace(/\s+/g, ' ')`: every maximal run of white space becomes one space. */
  function CollapseSpaces(s: string): (r: string)
    ensures |r| <= |s|
    decreases |s|
  {
    if s == [] then []
    else if IsSpace(s[0]) then [' '] + CollapseSpaces(TrimStart(s[1..]))
    else [s[0]] + CollapseSpaces(s[1..])
  }

  /** After collapsing, white space is single plain spaces; a first or last
      character that is not white space stays so; no other character appears. */
  lemma {:induction false} CollapseSpacesSpec(s: string)
    ensures SingleSpaced(CollapseSpaces(s))
    ensures Trimmed(s) ==> Trimmed(CollapseSpaces(s))
    ensures forall c :: c in CollapseSpaces(s) && !IsSpace(c) ==> c in s
  {
    CollapseSingleSpacedResult(s);
    CollapseFirst(s);
    CollapseLast(s);
    CollapseChars(s);
  }

  lemma {:induction false} CollapseSingleSpacedResult(s: string)
    ensures SingleSpaced(CollapseSpaces(s))
    decreases |s|
  {
    if s != [] {
      if IsSpace(s[0]) {
        var t := TrimStart(s[1..]);
        CollapseSingleSpacedResult(t);
        CollapseFirst(t);
        SingleSpacedCons(' ', CollapseSpaces(t));
      } else {
        CollapseSingleSpacedResult(s[1..]);
        SingleSpacedCons(s[0], CollapseSpaces(s[1..]));
      }
    }
  }

  lemma {:induction false} CollapseFirst(s: string)
    ensures s != [] && !IsSpace(s[0]) ==> CollapseSpaces(s) != [] && CollapseSpaces(s)[0] == s[0]
  {
  }

  lemma {:induction false} CollapseLast(s: string)
    ensures s != [] && !IsSpace(s[|s| - 1]) ==>
              CollapseSpaces(s) != [] && !IsSpace(CollapseSpaces(s)[|CollapseSpaces(s)| - 1])
    decreases |s|
  {
    if s != [] && !IsSpace(s[|s| - 1]) {
      var t := if IsSpace(s[0]) then TrimStart(s[1..]) else s[1..];
      assert CollapseSpaces(s) == [if IsSpace(s[0]) then ' ' else s[0]] + CollapseSpaces(t);
      if t != [] {
        assert t[|t| - 1] == s[|s| - 1] by {
          if IsSpace(s[0]) {
            TrimStartSuffix(s[1..]);
          }
        }
        CollapseLast(t);
      }
    }
  }

  lemma {:induction false} CollapseChars(s: string)
    ensures forall c :: c in CollapseSpaces(s) && !IsSpace(c) ==> c in s
    decreases |s|
  {
    if s != [] {
      var t := if IsSpace(s[0]) then TrimStart(s[1..]) else s[1..];
      TrimStartSuffix(s[1..]);
      assert CollapseSpaces(s) == [if IsSpace(s[0]) then ' ' else s[0]] + CollapseSpaces(t);
      CollapseChars(t);
      assert forall c :: c in t ==> c in s;
    }
  }

  /** Collapsing changes nothing in a string that is already single-spaced. */
  lemma {:induction false} CollapseSingleSpaced(s: string)
    requires SingleSpaced(s)
    ensures CollapseSpaces(s) == s
    decreases |s|
  {
    if s != [] {
      SingleSpacedTail(s);
      if IsSpace(s[0]) {
        assert SpaceOkAt(s, 0);
        assert TrimStart(s[1..]) == s[1..];
      }
      CollapseSingleSpaced(s[1..]);
    }
  }

  /** `s.split(sep)`: the pieces between the separators, in order. */
  function Split(s: string, sep: char): (parts: seq<string>)
    ensures |parts| >= 1
    ensures forall p <- parts :: sep !in p
  {
    if s == [] then [""]
    else
      var rest := Split(s[1..], sep);
      if s[0] == sep then [""] + rest
      else [[s[0]] + rest[0]] + rest[1..]
  }

  /** `parts.join(sep)` */
  function Join(parts: seq<string>, sep: string): string {
    if |parts| == 0 then ""
    else if |parts| == 1 then parts[0]
    else parts[0] + sep + Join(parts[1..], sep)
  }

  /** Extending the first piece extends the joined string at its front. */
  lemma {:induction false} JoinExtendFirst(w: string, parts: seq<string>, sep: string)
    requires |parts| >= 1
    ensures Join([w + parts[0]] + parts[1..], sep) == w + Join(parts, sep)
  {
    var ext := [w + parts[0]] + parts[1..];
    if |parts| > 1 {
      assert ext[1..] == parts[1..];
    }
  }

  /** Splitting undoes joining when no piece holds the separator. */
  lemma {:induction false} SplitJoin(parts: seq<string>, sep: char)
    requires |parts| >= 1
    requires forall p <- parts :: sep !in p
    ensures Split(Join(parts, [sep]), sep) == parts
    decreases |parts|
  {
    if |parts| == 1 {
      SplitWithout(parts[0], sep);
    } else {
      SplitJoin(parts[1..], sep);
      SplitAfter(parts[0], sep, Join(parts[1..], [sep]));
      assert parts[0] + [sep] + Join(parts[1..], [sep]) == Join(parts, [sep]);
      assert [parts[0]] + parts[1..] == parts;
    }
  }

  lemma {:induction false} SplitWithout(s: string, sep: char)
    requires sep !in s
    ensures Split(s, sep) == [s]
  {
    if s != [] {
      SplitWithout(s[1..], sep);
      assert [s[0]] + s[1..] == s;
    }
  }

  lemma {:induction false} SplitAfter(a: string, sep: char, b: string)
    requires sep !in a
    ensures Split(a + [sep] + b, sep) == [a] + Split(b, sep)
  {
    if a == [] {
      assert ([sep] + b)[1..] == b;
    } else {
      SplitAfter(a[1..], sep, b);
      assert (a + [sep] + b)[1..] == a[1..] + [sep] + b;
      assert [a[0]] + a[1..] == a;
    }
  }

  /** `needle` occurs in `hay` at position `k`. */
  predicate OccursAt(hay: string, needle: string, k: int) {
    0 <= k && k + |needle| <= |hay| && hay[k..k + |needle|] == needle
  }

  /** `hay.includes(needle)`, searching from the front. */
  function Includes(hay: string, needle: string): (r: bool)
    ensures r <==> exists k :: OccursAt(hay, needle, k)
    decreases |hay|
  {
    if |needle| > |hay| then false
    else if hay[..|needle|] == needle then
      assert OccursAt(hay, needle, 0);
      true
    else
      var r := Includes(hay[1..], needle);
      assert forall k :: OccursAt(hay[1..], needle, k) <==> OccursAt(hay, needle, k + 1) by {
        forall k ensures OccursAt(hay[1..], needle, k) <==> OccursAt(hay, needle, k + 1) {
          if 0 <= k && k + |needle| <= |hay[1..]| {
            assert hay[1..][k..k + |needle|] == hay[k + 1..k + 1 + |needle|];
          }
        }
      }
      assert r ==> exists k :: OccursAt(hay, needle, k) by {
        if r {
          var k :| OccursAt(hay[1..], needle, k);
          assert OccursAt(hay, needle, k + 1);
        }
      }
      assert (exists k :: OccursAt(hay, needle, k)) ==> r by {
        if exists k :: OccursAt(hay, needle, k) {
          var k :| OccursAt(hay, needle, k);
          assert k != 0;
          assert OccursAt(hay[1..], needle, k - 1);
        }
      }
      r
  }
}
