/** `extractMetadataFromFiles` (build/worker/zip-utils.mjs): sorts the
    scanned members into a metadata descriptor, a cover image and a list of
    audio files, by their lower-cased names. */
module ZipClassifier {
  import opened Wrappers
  import opened Bytes
  import opened ZipScanner

  // The names and extensions the classifier compares against, as ASCII bytes.
  const AlbumYaml: seq<byte> := [0x61, 0x6C, 0x62, 0x75, 0x6D, 0x2E, 0x79, 0x61, 0x6D, 0x6C]  // "album.yaml"
  const AlbumYml: seq<byte> := [0x61, 0x6C, 0x62, 0x75, 0x6D, 0x2E, 0x79, 0x6D, 0x6C]  // "album.yml"
  const AlbumJson: seq<byte> := [0x61, 0x6C, 0x62, 0x75, 0x6D, 0x2E, 0x6A, 0x73, 0x6F, 0x6E]  // "album.json"
  const CoverJpg: seq<byte> := [0x63, 0x6F, 0x76, 0x65, 0x72, 0x2E, 0x6A, 0x70, 0x67]  // "cover.jpg"
  const CoverJpeg: seq<byte> := [0x63, 0x6F, 0x76, 0x65, 0x72, 0x2E, 0x6A, 0x70, 0x65, 0x67]  // "cover.jpeg"
  const CoverPng: seq<byte> := [0x63, 0x6F, 0x76, 0x65, 0x72, 0x2E, 0x70, 0x6E, 0x67]  // "cover.png"
  const AlbumJpg: seq<byte> := [0x61, 0x6C, 0x62, 0x75, 0x6D, 0x2E, 0x6A, 0x70, 0x67]  // "album.jpg"
  const Mp3: seq<byte> := [0x2E, 0x6D, 0x70, 0x33]  // ".mp3"
  const Flac: seq<byte> := [0x2E, 0x66, 0x6C, 0x61, 0x63]  // ".flac"
  const Ogg: seq<byte> := [0x2E, 0x6F, 0x67, 0x67]  // ".ogg"
  const M4a: seq<byte> := [0x2E, 0x6D, 0x34, 0x61]  // ".m4a"
  const Wav: seq<byte> := [0x2E, 0x77, 0x61, 0x76]  // ".wav"

  /** `toLowerCase()` on the ASCII letters of a name. */
  function LowerByte(b: byte): byte {
    if 0x41 <= b <= 0x5A then b + 0x20 else b
  }

  function LowerBytes(s: seq<byte>): (r: seq<byte>)
    ensures |r| == |s|
  {
    seq(|s|, i requires 0 <= i < |s| => LowerByte(s[i]))
  }

  /** `s.endsWith(suffix)` */
  predicate EndsWith(s: seq<byte>, suffix: seq<byte>) {
    |suffix| <= |s| && s[|s| - |suffix|..] == suffix
  }

  predicate IsMetadataName(n: seq<byte>) {
    n == AlbumYaml || n == AlbumYml || n == AlbumJson
  }

  predicate IsCoverName(n: seq<byte>) {
    n == CoverJpg || n == CoverJpeg || n == CoverPng || n == AlbumJpg
  }

  predicate HasAudioExtension(n: seq<byte>) {
    EndsWith(n, Mp3) || EndsWith(n, Flac) || EndsWith(n, Ogg) || EndsWith(n, M4a) || EndsWith(n, Wav)
  }

  datatype Bucket = MetadataBucket | CoverBucket | AudioBucket | Ignored

  /** The branch of the if/else-if chain a member's name takes. */
  function Classify(name: seq<byte>): Bucket {
    var nameLower := LowerBytes(name);
    if IsMetadataName(nameLower) then MetadataBucket
    else if IsCoverName(nameLower) then CoverBucket
    else if HasAudioExtension(nameLower) then AudioBucket
    else Ignored
  }

  /** The three kinds of name never overlap, so the order of the tests decides
      nothing: each bucket takes exactly the names of its own kind. */
  lemma {:induction false} ClassifySpec(name: seq<byte>)
    ensures var n := LowerBytes(name);
            && (Classify(name) == MetadataBucket <==> IsMetadataName(n))
            && (Classify(name) == CoverBucket <==> IsCoverName(n))
            && (Classify(name) == AudioBucket <==> HasAudioExtension(n))
            && (Classify(name) == Ignored <==> !IsMetadataName(n) && !IsCoverName(n) && !HasAudioExtension(n))
  {
    var n := LowerBytes(name);
    if IsMetadataName(n) || IsCoverName(n) {
      NamedNotAudio(n);
    }
  }

  /** None of the fixed metadata or cover names ends in an audio extension. */
  lemma {:induction false} NamedNotAudio(n: seq<byte>)
    requires IsMetadataName(n) || IsCoverName(n)
    ensures !HasAudioExtension(n)
  {
    // Three bytes from its end each of these names has an `a`, `y`, `s`, `j`
    // or `p`, and each extension an `m`, `l`, `o` or `w`.
    var third := {0x61, 0x79, 0x73, 0x6A, 0x70};
    assert n[|n| - 3] in third by {
      assert AlbumYaml[7] in third && AlbumYml[6] in third && AlbumJson[7] in third;
      assert CoverJpg[6] in third && CoverJpeg[7] in third && CoverPng[6] in third && AlbumJpg[6] in third;
    }
  }

  /** The members, in input order, that fall in bucket `b`. */
  function Select(files: seq<ZipEntry>, b: Bucket): seq<ZipEntry> {
    if files == [] then []
    else
      var last := files[|files| - 1];
      Select(files[..|files| - 1], b) + (if Classify(last.name) == b then [last] else [])
  }

  /** A member falls in bucket `b` as often as it occurs in the input if its
      name belongs there, and not at all otherwise. */
  lemma {:induction false} SelectCounts(files: seq<ZipEntry>, b: Bucket, e: ZipEntry)
    ensures multiset(Select(files, b))[e] == if Classify(e.name) == b then multiset(files)[e] else 0
  {
    if files != [] {
      var init, last := files[..|files| - 1], files[|files| - 1];
      SelectCounts(init, b, e);
      assert files == init + [last];
    }
  }

  /** The last member, in input order, that falls in bucket `b`. */
  function LastIn(files: seq<ZipEntry>, b: Bucket): Option<ZipEntry> {
    if files == [] then None
    else
      var last := files[|files| - 1];
      if Classify(last.name) == b then Some(last) else LastIn(files[..|files| - 1], b)
  }

  /** Position `i` holds a member of bucket `b` and no later position does. */
  predicate LastAt(files: seq<ZipEntry>, b: Bucket, i: int) {
    0 <= i < |files| && Classify(files[i].name) == b
    && forall j :: i < j < |files| ==> Classify(files[j].name) != b
  }

  /** `LastIn` is `None` exactly when no name falls in `b`. */
  lemma {:induction false} LastInNone(files: seq<ZipEntry>, b: Bucket)
    ensures LastIn(files, b).None? <==> forall i :: 0 <= i < |files| ==> Classify(files[i].name) != b
  {
    if files != [] {
      var init, n := files[..|files| - 1], |files| - 1;
      LastInNone(init, b);
      assert forall i :: 0 <= i < n ==> files[i] == init[i];
    }
  }

  /** `LastIn` picks the member at the highest position whose name falls in `b`. */
  lemma {:induction false} LastInSome(files: seq<ZipEntry>, b: Bucket)
    ensures LastIn(files, b).Some? ==> exists i :: LastAt(files, b, i) && files[i] == LastIn(files, b).value
  {
    if files != [] {
      var init, n := files[..|files| - 1], |files| - 1;
      if Classify(files[n].name) == b {
        assert LastAt(files, b, n);
      } else {
        LastInSome(init, b);
        if LastIn(init, b).Some? {
          var i :| LastAt(init, b, i) && init[i] == LastIn(init, b).value;
          assert files[i] == init[i];
          forall j | i < j < |files| ensures Classify(files[j].name) != b {
            if j < n {
              assert files[j] == init[j];
            }
          }
        }
      }
    }
  }

  // ---------------------------------------------------------------------------
  // Ordering by name

  /** Byte-wise lexicographic order of names, standing for `localeCompare`. */
  predicate NameLe(a: seq<byte>, b: seq<byte>) {
    if a == [] then true
    else if b == [] then false
    else if a[0] != b[0] then a[0] < b[0]
    else NameLe(a[1..], b[1..])
  }

  lemma {:induction false} NameLeTotal(a: seq<byte>, b: seq<byte>)
    ensures NameLe(a, b) || NameLe(b, a)
  {
    if a != [] && b != [] && a[0] == b[0] {
      NameLeTotal(a[1..], b[1..]);
    }
  }

  lemma {:induction false} NameLeTransitive(a: seq<byte>, b: seq<byte>, c: seq<byte>)
    requires NameLe(a, b) && NameLe(b, c)
    ensures NameLe(a, c)
  {
    if a != [] && b != [] && c != [] && a[0] == b[0] == c[0] {
      NameLeTransitive(a[1..], b[1..], c[1..]);
    }
  }

  predicate SortedByName(s: seq<ZipEntry>) {
    forall i, j :: 0 <= i < j < |s| ==> NameLe(s[i].name, s[j].name)
  }

  /** `e` placed before the first member of `s` whose name is not below its own. */
  function InsertByName(e: ZipEntry, s: seq<ZipEntry>): (r: seq<ZipEntry>)
    requires SortedByName(s)
    ensures SortedByName(r)
    ensures multiset(r) == multiset(s) + multiset{e}
  {
    if s == [] || NameLe(e.name, s[0].name) then
      InsertFront(e, s);
      [e] + s
    else
      var rest := InsertByName(e, s[1..]);
      NameLeTotal(e.name, s[0].name);
      assert s == [s[0]] + s[1..];
      LowerBound(s[0], rest, s[1..] + [e]);
      InsertBehind(s[0], rest);
      [s[0]] + rest
  }

  lemma {:induction false} InsertFront(e: ZipEntry, s: seq<ZipEntry>)
    requires SortedByName(s)
    requires s == [] || NameLe(e.name, s[0].name)
    ensures SortedByName([e] + s)
  {
    var r := [e] + s;
    forall i, j | 0 <= i < j < |r| ensures NameLe(r[i].name, r[j].name) {
      if i == 0 && j > 1 {
        NameLeTransitive(e.name, s[0].name, s[j - 1].name);
      }
    }
  }

  /** A bound below every member of `ys` bounds every member of a permutation of `ys`. */
  lemma {:induction false} LowerBound(f: ZipEntry, xs: seq<ZipEntry>, ys: seq<ZipEntry>)
    requires multiset(xs) == multiset(ys)
    requires forall k :: 0 <= k < |ys| ==> NameLe(f.name, ys[k].name)
    ensures forall k :: 0 <= k < |xs| ==> NameLe(f.name, xs[k].name)
  {
    forall k | 0 <= k < |xs| ensures NameLe(f.name, xs[k].name) {
      assert xs[k] in multiset(ys);
      var m :| 0 <= m < |ys| && ys[m] == xs[k];
    }
  }

  lemma {:induction false} InsertBehind(f: ZipEntry, rest: seq<ZipEntry>)
    requires SortedByName(rest)
    requires forall k :: 0 <= k < |rest| ==> NameLe(f.name, rest[k].name)
    ensures SortedByName([f] + rest)
  {
  }

  /** `audioFiles.sort((a, b) => a.name.localeCompare(b.name))`, as a value:
      a permutation of its input, in order of name. */
  function SortByName(s: seq<ZipEntry>): (r: seq<ZipEntry>)
    ensures SortedByName(r)
    ensures multiset(r) == multiset(s)
  {
    if s == [] then []
    else
      assert s == [s[0]] + s[1..];
      InsertByName(s[0], SortByName(s[1..]))
  }

  // ---------------------------------------------------------------------------
  // The classifier

  datatype AlbumMetadata = AlbumMetadata(
    hasMetadataFile: bool,
    hasCoverArt: bool,
    audioFiles: seq<ZipEntry>,
    metadataFile: Option<ZipEntry>,
    coverFile: Option<ZipEntry>)

  /** The loop of `extractMetadataFromFiles` and the final sort. */
  method ExtractMetadataFromFiles(files: seq<ZipEntry>) returns (metadata: AlbumMetadata)
    ensures metadata.metadataFile == LastIn(files, MetadataBucket)
    ensures metadata.hasMetadataFile <==> metadata.metadataFile.Some?
    ensures metadata.coverFile == LastIn(files, CoverBucket)
    ensures metadata.hasCoverArt <==> metadata.coverFile.Some?
    ensures metadata.audioFiles == SortByName(Select(files, AudioBucket))
  {
    var hasMetadataFile, hasCoverArt := false, false;
    var audioFiles: seq<ZipEntry> := [];
    var metadataFile: Option<ZipEntry> := None;
    var coverFile: Option<ZipEntry> := None;
    for i := 0 to |files|
      invariant metadataFile == LastIn(files[..i], MetadataBucket)
      invariant hasMetadataFile <==> metadataFile.Some?
      invariant coverFile == LastIn(files[..i], CoverBucket)
      invariant hasCoverArt <==> coverFile.Some?
      invariant audioFiles == Select(files[..i], AudioBucket)
    {
      var file := files[i];
      assert files[..i + 1][..i] == files[..i];
      var nameLower := LowerBytes(file.name);
      if IsMetadataName(nameLower) {
        hasMetadataFile := true;
        metadataFile := Some(file);
      } else if IsCoverName(nameLower) {
        hasCoverArt := true;
        coverFile := Some(file);
      } else if HasAudioExtension(nameLower) {
        audioFiles := audioFiles + [file];
      }
    }
    assert files[..|files|] == files;
    audioFiles := SortByName(audioFiles);
    metadata := AlbumMetadata(hasMetadataFile, hasCoverArt, audioFiles, metadataFile, coverFile);
  }

  /** The audio list is in order of name and holds each member whose
      lower-cased name ends in an audio extension exactly as often as the input
      does, and nothing else. */
  lemma {:induction false} AudioFilesSpec(files: seq<ZipEntry>, e: ZipEntry)
    ensures SortedByName(SortByName(Select(files, AudioBucket)))
    ensures multiset(SortByName(Select(files, AudioBucket)))[e] ==
              if HasAudioExtension(LowerBytes(e.name)) then multiset(files)[e] else 0
  {
    SelectCounts(files, AudioBucket, e);
    ClassifySpec(e.name);
  }

  /** No member lands in two buckets. */
  lemma {:induction false} BucketsDisjoint(files: seq<ZipEntry>)
    ensures var audio, meta, cover := SortByName(Select(files, AudioBucket)), LastIn(files, MetadataBucket), LastIn(files, CoverBucket);
            && (meta.Some? ==> meta.value !in audio && cover != meta)
            && (cover.Some? ==> cover.value !in audio)
  {
    var audio, meta, cover := SortByName(Select(files, AudioBucket)), LastIn(files, MetadataBucket), LastIn(files, CoverBucket);
    LastInSome(files, MetadataBucket);
    LastInSome(files, CoverBucket);
    if meta.Some? {
      SelectCounts(files, AudioBucket, meta.value);
      assert multiset(audio)[meta.value] == 0;
    }
    if cover.Some? {
      SelectCounts(files, AudioBucket, cover.value);
      assert multiset(audio)[cover.value] == 0;
    }
  }
}
