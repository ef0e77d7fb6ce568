/** build/worker/uuid-utils.mjs: UUIDs as 36-character text and as 16-byte
    blobs, the conversion of a database row's blob columns to text, and the
    preparation of a UUID for binding. */
module Uuid {
  import opened Wrappers
  import opened Bytes
  import opened Text

  datatype UuidError = InvalidFormat | InvalidBlobSize

  // ---------------------------------------------------------------------------
  // Hexadecimal digits

  predicate IsHexDigit(c: char) {
    IsDigit(c) || 'a' <= c <= 'f' || 'A' <= c <= 'F'
  }

  function HexValue(c: char): (v: nat)
    requires IsHexDigit(c)
    ensures v < 16
  {
    if IsDigit(c) then c as int - '0' as int
    else if 'a' <= c <= 'f' then c as int - 'a' as int + 10
    else c as int - 'A' as int + 10
  }

  /** The lower-case digit `toString(16)` writes for `d`. */
  function HexDigitChar(d: nat): (c: char)
    requires d < 16
    ensures IsHexDigit(c) && HexValue(c) == d && !IsUpper(c)
  {
    "0123456789abcdef"[d]
  }

  /** Writing back the value of a digit gives the digit in lower case. */
  lemma {:induction false} HexDigitRoundTrip(c: char)
    requires IsHexDigit(c)
    ensures HexDigitChar(HexValue(c)) == LowerChar(c)
  {
  }

  // ---------------------------------------------------------------------------
  // parseInt(s, 16)

  /** The length of the run of hexadecimal digits that begins `s`. */
  function LeadingHexDigits(s: string): (n: nat)
    ensures n <= |s| && forall i :: 0 <= i < n ==> IsHexDigit(s[i])
    ensures n < |s| ==> !IsHexDigit(s[n])
  {
    if s != [] && IsHexDigit(s[0]) then 1 + LeadingHexDigits(s[1..]) else 0
  }

  /** The value of a run of hexadecimal digits. */
  function HexRunValue(d: string): nat
    requires forall i :: 0 <= i < |d| ==> IsHexDigit(d[i])
  {
    if d == [] then 0 else 16 * HexRunValue(d[..|d| - 1]) + HexValue(d[|d| - 1])
  }

  /** ECMAScript's `parseInt(s, 16)`: leading white space skipped, an optional
      sign, an optional `0x`/`0X` prefix, then the longest run of hexadecimal
      digits; `None` stands for NaN, when that run is empty. */
  function ParseIntHex(s: string): Option<int> {
    var t := TrimStart(s);
    var sign := if t != [] && t[0] == '-' then -1 else 1;
    var u := if t != [] && (t[0] == '-' || t[0] == '+') then t[1..] else t;
    var v := if |u| >= 2 && u[0] == '0' && (u[1] == 'x' || u[1] == 'X') then u[2..] else u;
    var n := LeadingHexDigits(v);
    if n == 0 then None else Some(sign * HexRunValue(v[..n]))
  }

  /** Two hexadecimal digits parse to the byte they spell. */
  lemma {:induction false} ParseIntHexPair(a: char, b: char)
    requires IsHexDigit(a) && IsHexDigit(b)
    ensures ParseIntHex([a, b]) == Some(16 * HexValue(a) + HexValue(b))
  {
    var s := [a, b];
    assert !IsSpace(a);
    assert TrimStart(s) == s;
    assert s[1..] == [b] && [b][1..] == [];
    assert LeadingHexDigits(s) == 2;
    assert s[..2] == s && s[..1] == [a] && [a][..0] == [];
    assert HexRunValue(s) == 16 * HexRunValue([a]) + HexValue(b);
  }

  /** Storing a number into a `Uint8Array`: NaN becomes 0, anything else is
      taken modulo 256. */
  function ToUint8(v: Option<int>): byte {
    if v.None? then 0 else v.value % 256
  }

  // ---------------------------------------------------------------------------
  // uuidToBlob

  /** `replace(/-/g, '')` */
  function RemoveHyphens(s: string): (r: string)
    ensures |r| <= |s|
  {
    if s == [] then [] else (if s[0] == '-' then [] else [s[0]]) + RemoveHyphens(s[1..])
  }

  lemma {:induction false} RemoveHyphensAppend(a: string, b: string)
    ensures RemoveHyphens(a + b) == RemoveHyphens(a) + RemoveHyphens(b)
  {
    if a == [] {
      assert a + b == b;
    } else {
      var h := if a[0] == '-' then [] else [a[0]];
      calc {
        RemoveHyphens(a + b);
        { assert (a + b)[0] == a[0] && (a + b)[1..] == a[1..] + b; }
        h + RemoveHyphens(a[1..] + b);
        { RemoveHyphensAppend(a[1..], b); }
        h + (RemoveHyphens(a[1..]) + RemoveHyphens(b));
        (h + RemoveHyphens(a[1..])) + RemoveHyphens(b);
      }
    }
  }

  lemma {:induction false} RemoveHyphensNone(s: string)
    requires '-' !in s
    ensures RemoveHyphens(s) == s
  {
    if s != [] {
      RemoveHyphensNone(s[1..]);
    }
  }

  /** `parseInt(hex.substr(i * 2, 2), 16)` stored into byte `i`. */
  function PairByte(hex: string, i: nat): byte
    requires 2 * i + 2 <= |hex|
  {
    ToUint8(ParseIntHex(hex[2 * i..2 * i + 2]))
  }

  /** A pair of hexadecimal digits becomes the byte they spell. */
  lemma {:induction false} PairByteOfDigits(hex: string, i: nat)
    requires 2 * i + 2 <= |hex| && IsHexDigit(hex[2 * i]) && IsHexDigit(hex[2 * i + 1])
    ensures PairByte(hex, i) == 16 * HexValue(hex[2 * i]) + HexValue(hex[2 * i + 1])
  {
    assert hex[2 * i..2 * i + 2] == [hex[2 * i], hex[2 * i + 1]];
    ParseIntHexPair(hex[2 * i], hex[2 * i + 1]);
  }

  /** What `uuidToBlob` yields: an error unless 32 characters remain once the
      hyphens are removed, and otherwise the 16 bytes read two characters at a time. */
  function UuidBytes(uuid: string): (r: Result<seq<byte>, UuidError>)
    ensures r.Failure? <==> |RemoveHyphens(uuid)| != 32
    ensures r.Failure? ==> r.error == InvalidFormat
    ensures r.Success? ==> |r.value| == 16
  {
    var hex := RemoveHyphens(uuid);
    if |hex| != 32 then Failure(InvalidFormat)
    else Success(seq(16, i requires 0 <= i < 16 => PairByte(hex, i)))
  }

  /** `uuidToBlob`: a fresh `Uint8Array(16)` filled pair by pair. */
  method UuidToBlob(uuid: string) returns (r: Result<array<byte>, UuidError>)
    ensures UuidBytes(uuid).Failure? ==> r == Failure(InvalidFormat)
    ensures UuidBytes(uuid).Success? ==> r.Success? && fresh(r.value) && r.value[..] == UuidBytes(uuid).value
  {
    var hex := RemoveHyphens(uuid);
    if |hex| != 32 {
      return Failure(InvalidFormat);
    }
    var bytes := new byte[16](_ => 0);
    for i := 0 to 16
      invariant forall j :: 0 <= j < i ==> bytes[j] == PairByte(hex, j)
    {
      bytes[i] := PairByte(hex, i);
    }
    assert bytes[..] == UuidBytes(uuid).value by {
      assert UuidBytes(uuid).value == seq(16, i requires 0 <= i < 16 => PairByte(hex, i));
    }
    return Success(bytes);
  }

  // ---------------------------------------------------------------------------
  // blobToUuid and isValidUuid

  /** `b.toString(16).padStart(2, '0')` */
  function ByteHex(b: byte): (s: string)
    ensures |s| == 2 && s[0] == HexDigitChar(b / 16) && s[1] == HexDigitChar(b % 16)
  {
    var digits := if b < 16 then [HexDigitChar(b)] else [HexDigitChar(b / 16), HexDigitChar(b % 16)];
    if |digits| < 2 then "0" + digits else digits
  }

  /** `Array.from(bytes).map(...).join('')` */
  function BlobHex(bytes: seq<byte>): (hex: string)
    ensures |hex| == 2 * |bytes|
    ensures forall i :: 0 <= i < |bytes| ==> hex[2 * i] == HexDigitChar(bytes[i] / 16) && hex[2 * i + 1] == HexDigitChar(bytes[i] % 16)
    ensures forall k :: 0 <= k < |hex| ==> IsHexDigit(hex[k]) && !IsUpper(hex[k])
  {
    if bytes == [] then ""
    else
      var rest := BlobHex(bytes[1..]);
      assert forall i :: 1 <= i < |bytes| ==> bytes[i] == bytes[1..][i - 1];
      ByteHex(bytes[0]) + rest
  }

  /** The substrings at 0, 8, 12, 16 and 20 of a 32-digit string joined by hyphens. */
  function Hyphenate(hex: string): (s: string)
    requires |hex| == 32
    ensures |s| == 36
  {
    hex[0..8] + "-" + hex[8..12] + "-" + hex[12..16] + "-" + hex[16..20] + "-" + hex[20..32]
  }

  /** `blobToUuid`; the blob is given as its bytes. */
  function BlobToUuid(blob: seq<byte>): (r: Result<string, UuidError>)
    ensures r.Failure? <==> |blob| != 16
    ensures r.Failure? ==> r.error == InvalidBlobSize
  {
    if |blob| != 16 then Failure(InvalidBlobSize)
    else Success(Hyphenate(BlobHex(blob)))
  }

  predicate IsHyphenPosition(i: int) {
    i == 8 || i == 13 || i == 18 || i == 23
  }

  /** `isValidUuid`: `/^[0-9a-f]{8}-[0-9a-f]{4}-[0-9a-f]{4}-[0-9a-f]{4}-[0-9a-f]{12}$/i` */
  predicate IsValidUuid(uuid: string) {
    |uuid| == 36 && forall i :: 0 <= i < 36 ==> if IsHyphenPosition(i) then uuid[i] == '-' else IsHexDigit(uuid[i])
  }

  /** The digit a position of the hyphenated form shows. */
  function HexIndex(i: int): int {
    if i < 8 then i else if i < 13 then i - 1 else if i < 18 then i - 2 else if i < 23 then i - 3 else i - 4
  }

  /** Each position of the hyphenated form holds a hyphen or the next digit. */
  lemma {:induction false} HyphenateAt(hex: string)
    requires |hex| == 32
    ensures forall i :: 0 <= i < 36 ==>
              0 <= HexIndex(i) < 32 && Hyphenate(hex)[i] == if IsHyphenPosition(i) then '-' else hex[HexIndex(i)]
  {
    var s := Hyphenate(hex);
    assert s[..8] == hex[0..8] && s[8] == '-';
    assert s[9..13] == hex[8..12] && s[13] == '-';
    assert s[14..18] == hex[12..16] && s[18] == '-';
    assert s[19..23] == hex[16..20] && s[23] == '-';
    assert s[24..] == hex[20..32];
    forall i | 0 <= i < 36 ensures Hyphenate(hex)[i] == if IsHyphenPosition(i) then '-' else hex[HexIndex(i)] {
      if i < 8 { assert s[i] == s[..8][i]; }
      else if 8 < i < 13 { assert s[i] == s[9..13][i - 9]; }
      else if 13 < i < 18 { assert s[i] == s[14..18][i - 14]; }
      else if 18 < i < 23 { assert s[i] == s[19..23][i - 19]; }
      else if 23 < i { assert s[i] == s[24..][i - 24]; }
    }
  }

  /** Hyphenating 32 digits gives a valid UUID. */
  lemma {:induction false} HyphenateValid(hex: string)
    requires |hex| == 32 && forall i :: 0 <= i < 32 ==> IsHexDigit(hex[i])
    ensures IsValidUuid(Hyphenate(hex))
  {
    HyphenateAt(hex);
  }

  lemma {:induction false} RemoveHyphensJoin(g: string, rest: string)
    requires '-' !in g
    ensures RemoveHyphens(g + "-" + rest) == g + RemoveHyphens(rest)
  {
    RemoveHyphensAppend(g, "-" + rest);
    RemoveHyphensNone(g);
    assert g + "-" + rest == g + ("-" + rest);
    assert ("-" + rest)[1..] == rest;
  }

  /** Removing the hyphens from five hyphen-free groups joined by hyphens
      leaves the groups run together. */
  lemma {:induction false} RemoveHyphensGroups(g0: string, g1: string, g2: string, g3: string, g4: string)
    requires '-' !in g0 && '-' !in g1 && '-' !in g2 && '-' !in g3 && '-' !in g4
    ensures RemoveHyphens(g0 + "-" + g1 + "-" + g2 + "-" + g3 + "-" + g4) == g0 + g1 + g2 + g3 + g4
  {
    var t3 := g3 + "-" + g4;
    var t2 := g2 + "-" + t3;
    var t1 := g1 + "-" + t2;
    var t0 := g0 + "-" + t1;
    RemoveHyphensNone(g4);
    RemoveHyphensJoin(g3, g4);
    RemoveHyphensJoin(g2, t3);
    RemoveHyphensJoin(g1, t2);
    RemoveHyphensJoin(g0, t1);
    assert RemoveHyphens(t0) == g0 + (g1 + (g2 + (g3 + g4)));
    assert g0 + "-" + g1 + "-" + g2 + "-" + g3 + "-" + g4 == t0;
    assert g0 + (g1 + (g2 + (g3 + g4))) == g0 + g1 + g2 + g3 + g4;
  }

  /** Removing the hyphens undoes hyphenation. */
  lemma {:induction false} RemoveHyphensHyphenate(hex: string)
    requires |hex| == 32 && '-' !in hex
    ensures RemoveHyphens(Hyphenate(hex)) == hex
  {
    var g0, g1, g2, g3, g4 := hex[0..8], hex[8..12], hex[12..16], hex[16..20], hex[20..32];
    assert forall c :: c in g0 || c in g1 || c in g2 || c in g3 || c in g4 ==> c in hex;
    RemoveHyphensGroups(g0, g1, g2, g3, g4);
    assert g0 + g1 + g2 + g3 + g4 == hex;
  }

  /** The 32 digits of a 36-character UUID, the hyphen positions left out. */
  function UuidDigits(uuid: string): (hex: string)
    requires |uuid| == 36
    ensures |hex| == 32
  {
    uuid[0..8] + uuid[9..13] + uuid[14..18] + uuid[19..23] + uuid[24..36]
  }

  /** The position in the UUID of its `i`-th digit. */
  function UuidPosition(i: int): int {
    if i < 8 then i else if i < 12 then i + 1 else if i < 16 then i + 2 else if i < 20 then i + 3 else i + 4
  }

  lemma {:induction false} UuidDigitsAt(uuid: string)
    requires |uuid| == 36
    ensures forall i :: 0 <= i < 32 ==> 0 <= UuidPosition(i) < 36 && UuidDigits(uuid)[i] == uuid[UuidPosition(i)]
  {
    var hex := UuidDigits(uuid);
    forall i | 0 <= i < 32 ensures hex[i] == uuid[UuidPosition(i)] {
      if i < 8 { assert hex[i] == uuid[i]; }
      else if i < 12 { assert hex[i] == uuid[i + 1]; }
      else if i < 16 { assert hex[i] == uuid[i + 2]; }
      else if i < 20 { assert hex[i] == uuid[i + 3]; }
      else { assert hex[i] == uuid[i + 4]; }
    }
  }

  /** A valid UUID is the hyphenation of its own digits. */
  lemma {:induction false} ValidIsHyphenated(uuid: string)
    requires IsValidUuid(uuid)
    ensures |RemoveHyphens(uuid)| == 32
    ensures forall i :: 0 <= i < 32 ==> IsHexDigit(RemoveHyphens(uuid)[i])
    ensures Hyphenate(RemoveHyphens(uuid)) == uuid
  {
    var hex := UuidDigits(uuid);
    UuidDigitsAt(uuid);
    assert forall i :: 0 <= i < 32 ==> IsHexDigit(hex[i]) by {
      forall i | 0 <= i < 32 ensures IsHexDigit(hex[i]) {
        assert !IsHyphenPosition(UuidPosition(i));
      }
    }
    assert Hyphenate(hex) == uuid by {
      HyphenateAt(hex);
      forall k | 0 <= k < 36 && !IsHyphenPosition(k) ensures UuidPosition(HexIndex(k)) == k {
      }
    }
    assert '-' !in hex;
    RemoveHyphensHyphenate(hex);
  }

  /** Reading the digits of a blob back two at a time gives its bytes. */
  lemma {:induction false} PairBytesOfBlobHex(blob: seq<byte>)
    requires |blob| == 16
    ensures forall i :: 0 <= i < 16 ==> PairByte(BlobHex(blob), i) == blob[i]
  {
    var hex := BlobHex(blob);
    forall i | 0 <= i < 16 ensures PairByte(hex, i) == blob[i] {
      PairByteOfDigits(hex, i);
      assert blob[i] == 16 * (blob[i] / 16) + blob[i] % 16;
    }
  }

  /** Every blob of 16 bytes becomes a valid, lower-case UUID, and reading
      that UUID back gives the blob. */
  lemma {:induction false} BlobToUuidRoundTrip(blob: seq<byte>)
    requires |blob| == 16
    ensures IsValidUuid(BlobToUuid(blob).value) && NoUpper(BlobToUuid(blob).value)
    ensures UuidBytes(BlobToUuid(blob).value) == Success(blob)
  {
    var hex := BlobHex(blob);
    var uuid := Hyphenate(hex);
    assert IsValidUuid(uuid) && NoUpper(uuid) by {
      HyphenateValid(hex);
      HyphenateAt(hex);
    }
    assert RemoveHyphens(uuid) == hex by {
      assert '-' !in hex;
      RemoveHyphensHyphenate(hex);
    }
    PairBytesOfBlobHex(blob);
    assert UuidBytes(uuid).value == blob;
  }

  /** The bytes of a valid UUID, each from two of its digits. */
  lemma {:induction false} BytesOfValid(uuid: string)
    requires IsValidUuid(uuid)
    ensures |RemoveHyphens(uuid)| == 32 && UuidBytes(uuid).Success?
    ensures forall k :: 0 <= k < 32 ==> IsHexDigit(RemoveHyphens(uuid)[k])
    ensures forall i :: 0 <= i < 16 ==>
              UuidBytes(uuid).value[i] == 16 * HexValue(RemoveHyphens(uuid)[2 * i]) + HexValue(RemoveHyphens(uuid)[2 * i + 1])
  {
    ValidIsHyphenated(uuid);
    var hex := RemoveHyphens(uuid);
    forall i | 0 <= i < 16 ensures PairByte(hex, i) == 16 * HexValue(hex[2 * i]) + HexValue(hex[2 * i + 1]) {
      PairByteOfDigits(hex, i);
    }
  }

  /** Writing out a byte read from two digits gives the two digits in lower case. */
  lemma {:induction false} PairDigits(h0: char, h1: char, b: byte)
    requires IsHexDigit(h0) && IsHexDigit(h1)
    requires b as int == 16 * HexValue(h0) + HexValue(h1)
    ensures HexDigitChar(b / 16) == LowerChar(h0) && HexDigitChar(b % 16) == LowerChar(h1)
  {
    assert b / 16 == HexValue(h0) && b % 16 == HexValue(h1);
    HexDigitRoundTrip(h0);
    HexDigitRoundTrip(h1);
  }

  /** Writing out bytes read from digit pairs gives the digits in lower case. */
  lemma {:induction false} BlobHexOfPairs(hex: string, bytes: seq<byte>)
    requires |hex| == 32 && |bytes| == 16
    requires forall k :: 0 <= k < 32 ==> IsHexDigit(hex[k])
    requires forall i :: 0 <= i < 16 ==> bytes[i] == 16 * HexValue(hex[2 * i]) + HexValue(hex[2 * i + 1])
    ensures forall k :: 0 <= k < 32 ==> BlobHex(bytes)[k] == LowerChar(hex[k])
  {
    var back := BlobHex(bytes);
    forall i | 0 <= i < 16 ensures back[2 * i] == LowerChar(hex[2 * i]) && back[2 * i + 1] == LowerChar(hex[2 * i + 1]) {
      PairDigits(hex[2 * i], hex[2 * i + 1], bytes[i]);
    }
    forall k | 0 <= k < 32 ensures back[k] == LowerChar(hex[k]) {
      var i := k / 2;
      assert k == 2 * i || k == 2 * i + 1;
    }
  }

  /** Every valid UUID is accepted, and its blob turns back into the same UUID
      in lower case. */
  lemma {:induction false} UuidBytesRoundTrip(uuid: string)
    requires IsValidUuid(uuid)
    ensures UuidBytes(uuid).Success?
    ensures BlobToUuid(UuidBytes(uuid).value) == Success(Lower(uuid))
  {
    BytesOfValid(uuid);
    var hex := RemoveHyphens(uuid);
    var bytes := UuidBytes(uuid).value;
    BlobHexOfPairs(hex, bytes);
    HyphenateLower(hex, BlobHex(bytes));
    ValidIsHyphenated(uuid);
  }

  /** Hyphenating the lower-cased digits is lower-casing the hyphenation. */
  lemma {:induction false} HyphenateLower(hex: string, low: string)
    requires |hex| == 32 && |low| == 32
    requires forall k :: 0 <= k < 32 ==> low[k] == LowerChar(hex[k])
    ensures Hyphenate(low) == Lower(Hyphenate(hex))
  {
    var a, b := Hyphenate(low), Lower(Hyphenate(hex));
    forall i | 0 <= i < 36 ensures a[i] == b[i] {
      var h := Hyphenate(hex);
      if i < 8 { assert a[i] == low[i] && h[i] == hex[i]; }
      else if i == 8 || i == 13 || i == 18 || i == 23 { assert a[i] == '-' && h[i] == '-'; }
      else if i < 13 { assert a[i] == low[i - 1] && h[i] == hex[i - 1]; }
      else if i < 18 { assert a[i] == low[i - 2] && h[i] == hex[i - 2]; }
      else if i < 23 { assert a[i] == low[i - 3] && h[i] == hex[i - 3]; }
      else { assert a[i] == low[i - 4] && h[i] == hex[i - 4]; }
    }
  }

  // ---------------------------------------------------------------------------
  // convertBlobUuidsToStrings and prepareUuidForBinding

  /** A column value of a database row: bytes (an `ArrayBuffer` or a
      `Uint8Array`), text, or anything else. */
  datatype Cell = BlobCell(bytes: seq<byte>) | StringCell(text: string) | OtherCell

  /** The text a 16-byte blob column becomes. */
  function UuidText(bytes: seq<byte>): string
    requires |bytes| == 16
  {
    BlobToUuid(bytes).value
  }

  /** `convertBlobUuidsToStrings`: a copy of the row in which each listed blob
      column has become its UUID text; a listed blob of any size but 16 makes
      the whole call fail. */
  method ConvertBlobUuidsToStrings(row: map<string, Cell>, uuidFields: seq<string>) returns (r: Result<map<string, Cell>, UuidError>)
    ensures r.Failure? <==> exists f <- uuidFields :: f in row && row[f].BlobCell? && |row[f].bytes| != 16
    ensures r.Failure? ==> r.error == InvalidBlobSize
    ensures r.Success? ==> r.value.Keys == row.Keys
    ensures r.Success? ==> forall k <- row ::
              r.value[k] == if k in uuidFields && row[k].BlobCell? then StringCell(UuidText(row[k].bytes)) else row[k]
  {
    var converted := row;
    for i := 0 to |uuidFields|
      invariant converted.Keys == row.Keys
      invariant forall f <- uuidFields[..i] :: f in row && row[f].BlobCell? ==> |row[f].bytes| == 16
      invariant forall k <- row ::
                  converted[k] == if k in uuidFields[..i] && row[k].BlobCell? then StringCell(UuidText(row[k].bytes)) else row[k]
    {
      var field := uuidFields[i];
      assert uuidFields[..i + 1] == uuidFields[..i] + [field];
      if field in converted && converted[field].BlobCell? {
        var uuid := BlobToUuid(converted[field].bytes);
        if uuid.Failure? {
          assert field in uuidFields;
          return Failure(uuid.error);
        }
        converted := converted[field := StringCell(uuid.value)];
      }
    }
    assert uuidFields[..|uuidFields|] == uuidFields;
    return Success(converted);
  }

  /** `prepareUuidForBinding`: nothing for an absent or empty UUID, its blob otherwise. */
  method PrepareUuidForBinding(uuid: Option<string>) returns (r: Result<Option<array<byte>>, UuidError>)
    ensures uuid.None? || uuid.value == "" ==> r == Success(None)
    ensures uuid.Some? && uuid.value != "" && UuidBytes(uuid.value).Failure? ==> r == Failure(InvalidFormat)
    ensures uuid.Some? && uuid.value != "" && UuidBytes(uuid.value).Success? ==>
              r.Success? && r.value.Some? && r.value.value[..] == UuidBytes(uuid.value).value
  {
    if uuid.None? || uuid.value == "" {
      return Success(None);
    }
    var blob := UuidToBlob(uuid.value);
    if blob.Failure? {
      return Failure(blob.error);
    }
    return Success(Some(blob.value));
  }
}
