/** The HLS conversion of one uploaded video: the fixed table of quality
    variants, the names of the files each variant produces, the master
    playlist that lists them (an `#EXTM3U` playlist with one
    `EXT-X-STREAM-INF` tag per variant, section 4.3.4.2 of RFC 8216), and
    the orchestration that encodes the variants one by one into the job's
    output directory. The external encoder is an oracle. */
module Converter {
  import opened Text
  import opened FileTree

  /** One quality rendition: all four fields are kept as the strings the
      encoder is given. */
  datatype Variant = Variant(name: string, height: string, vbitrate: string, width: string)

  /** The variants every job is encoded into, in encoding order. */
  const HlsVariants: seq<Variant> := [
    Variant("360p", "360", "800k", "640"),
    Variant("540p", "540", "1800k", "960"),
    Variant("720p", "720", "3500k", "1280"),
    Variant("1080p", "1080", "6000k", "1920")
  ]

  /** The sub-playlist a variant's encode writes and the master playlist refers to. */
  function StreamName(v: Variant): string {
    "stream_" + v.name + ".m3u8"
  }

  /** `%03d` applied to a rendered number: left-padded with zeros to three digits. */
  function ZeroPad3(digits: string): (r: string)
    ensures |digits| >= 3 ==> r == digits
    ensures |digits| < 3 ==> |r| == 3 && forall i :: 0 <= i < 3 - |digits| ==> r[i] == '0'
    ensures HasSuffix(r, digits)
  {
    if |digits| >= 3 then digits else Zeros(3 - |digits|) + digits
  }

  function Zeros(n: nat): string {
    seq(n, _ => '0')
  }

  /** Leading zeros do not change the number a digit string denotes. */
  lemma {:induction false} ZerosValue(n: nat, digits: string)
    requires AllDigits(digits)
    ensures AllDigits(Zeros(n) + digits) && DecimalValue(Zeros(n) + digits) == DecimalValue(digits)
    decreases n
  {
    if n == 0 {
      assert Zeros(n) + digits == digits;
    } else {
      ZerosValue(n - 1, digits);
      assert Zeros(n) + digits == "0" + (Zeros(n - 1) + digits);
      LeadingZeroValue(Zeros(n - 1) + digits);
    }
  }

  /** Padding leaves the number a digit string denotes unchanged. */
  lemma ZeroPad3Value(digits: string)
    requires AllDigits(digits)
    ensures AllDigits(ZeroPad3(digits)) && DecimalValue(ZeroPad3(digits)) == DecimalValue(digits)
  {
    if |digits| < 3 {
      ZerosValue(3 - |digits|, digits);
    }
  }

  /** Distinct segments of a variant are written to distinct files. */
  lemma SegmentNamesDistinct(name: string, k1: nat, k2: nat)
    requires SegmentName(name, k1) == SegmentName(name, k2)
    ensures k1 == k2
  {
    var p1, p2 := ZeroPad3(NatToString(k1)), ZeroPad3(NatToString(k2));
    var prefix := name + "_segment_";
    var s := SegmentName(name, k1);
    assert s == prefix + p1 + ".ts" && s == prefix + p2 + ".ts";
    assert p1 == s[|prefix|..|s| - 3] == p2;
    SegmentNumberReadsBack(k1);
    SegmentNumberReadsBack(k2);
  }

  /** The segment number in a segment file name reads back as the number, so
      distinct segments of a variant get distinct file names. */
  lemma SegmentNumberReadsBack(k: nat)
    ensures AllDigits(ZeroPad3(NatToString(k))) && DecimalValue(ZeroPad3(NatToString(k))) == k
  {
    ZeroPad3Value(NatToString(k));
    DecimalValueOfNatToString(k);
  }

  /** The k-th segment file of a variant, `<name>_segment_%03d.ts`. */
  function SegmentName(name: string, k: nat): string {
    name + "_segment_" + ZeroPad3(NatToString(k)) + ".ts"
  }

  /** The bandwidth attribute: the bitrate with one trailing "k" removed and
      "000" appended. */
  function Bandwidth(v: Variant): string {
    TrimSuffix(v.vbitrate, "k") + "000"
  }

  /** The `EXT-X-STREAM-INF` tag line of a variant (without its line break). */
  function StreamInf(v: Variant): string {
    "#EXT-X-STREAM-INF:BANDWIDTH=" + Bandwidth(v) + ",RESOLUTION=" + v.width + "x" + v.height
      + ",NAME=\"" + v.name + "\""
  }

  const Header: string := "#EXTM3U\n#EXT-X-VERSION:3\n"

  /** The tag/URI line pairs of the variants, each line ended by a line break. */
  function Entries(vs: seq<Variant>): string
    decreases |vs|
  {
    if vs == [] then "" else Entries(vs[..|vs| - 1]) + EntryText(vs[|vs| - 1])
  }

  /** One variant's entry: its tag line and its sub-playlist line. */
  function EntryText(v: Variant): string {
    StreamInf(v) + "\n" + StreamName(v) + "\n"
  }

  /** The master playlist text for a list of variants. */
  function Manifest(vs: seq<Variant>): string {
    Header + Entries(vs)
  }

  /** Builds the master playlist line by line, as the source accumulates it in
      a string builder. */
  method BuildManifest(vs: seq<Variant>) returns (content: string)
    ensures content == Manifest(vs)
  {
    content := Header;
    var i := 0;
    while i < |vs|
      invariant 0 <= i <= |vs|
      invariant content == Manifest(vs[..i])
    {
      var v := vs[i];
      ManifestGrows(vs, i);
      content := content + StreamInf(v) + "\n";
      content := content + StreamName(v) + "\n";
      i := i + 1;
    }
    assert vs[..i] == vs;
  }

  lemma ManifestGrows(vs: seq<Variant>, i: nat)
    requires i < |vs|
    ensures Manifest(vs[..i + 1]) == Manifest(vs[..i]) + EntryText(vs[i])
  {
    assert vs[..i + 1][..i] == vs[..i];
  }

  // ---------------------------------------------------------------- lines

  /** Text made of the given lines, each ended by a line break. */
  function JoinLines(lines: seq<string>): string
    decreases |lines|
  {
    if lines == [] then "" else lines[0] + "\n" + JoinLines(lines[1..])
  }

  /** Index of the first line break at or after `i`, or |s| if there is none. */
  function LineEnd(s: string, i: nat): (k: nat)
    requires i <= |s|
    ensures i <= k <= |s|
    ensures k < |s| ==> s[k] == '\n'
    ensures forall j :: i <= j < k ==> s[j] != '\n'
    decreases |s| - i
  {
    if i == |s| || s[i] == '\n' then i else LineEnd(s, i + 1)
  }

  /** The lines of a text; a last line without a line break still counts. */
  function SplitLines(s: string): seq<string>
    decreases |s|
  {
    if s == [] then []
    else
      var k := LineEnd(s, 0);
      if k == |s| then [s] else [s[..k]] + SplitLines(s[k + 1..])
  }

  predicate NoLineBreak(line: string) {
    '\n' !in line
  }

  lemma {:induction false} JoinLinesAppend(a: seq<string>, b: seq<string>)
    ensures JoinLines(a + b) == JoinLines(a) + JoinLines(b)
    decreases |a|
  {
    if a == [] {
      assert a + b == b;
    } else {
      assert (a + b)[0] == a[0];
      assert (a + b)[1..] == a[1..] + b;
      JoinLinesAppend(a[1..], b);
    }
  }

  /** Splitting joined lines gives the lines back when none holds a line break. */
  lemma {:induction false} SplitJoinLines(lines: seq<string>)
    requires forall l :: l in lines ==> NoLineBreak(l)
    ensures SplitLines(JoinLines(lines)) == lines
    decreases |lines|
  {
    if lines != [] {
      var s := JoinLines(lines);
      var first := lines[0];
      assert NoLineBreak(first) by { assert lines[0] in lines; }
      assert s[|first|] == '\n';
      var k := LineEnd(s, 0);
      assert k == |first|;
      assert s[..k] == first;
      assert s[k + 1..] == JoinLines(lines[1..]);
      SplitJoinLines(lines[1..]);
    }
  }

  /** The lines of the variant entries: tag line, then sub-playlist name, per variant. */
  function EntryLines(vs: seq<Variant>): seq<string>
    decreases |vs|
  {
    if vs == [] then []
    else EntryLines(vs[..|vs| - 1]) + [StreamInf(vs[|vs| - 1]), StreamName(vs[|vs| - 1])]
  }

  const HeaderLines: seq<string> := ["#EXTM3U", "#EXT-X-VERSION:3"]

  function ManifestLines(vs: seq<Variant>): seq<string> {
    HeaderLines + EntryLines(vs)
  }

  lemma {:induction false} EntriesAreJoinedLines(vs: seq<Variant>)
    ensures Entries(vs) == JoinLines(EntryLines(vs))
    decreases |vs|
  {
    if vs != [] {
      var init, last := vs[..|vs| - 1], vs[|vs| - 1];
      EntriesAreJoinedLines(init);
      JoinLinesAppend(EntryLines(init), [StreamInf(last), StreamName(last)]);
      assert JoinLines([StreamName(last)]) == StreamName(last) + "\n";
      assert [StreamInf(last), StreamName(last)][1..] == [StreamName(last)];
      assert JoinLines([StreamInf(last), StreamName(last)]) == EntryText(last);
    }
  }

  lemma {:induction false} EntryLinesAt(vs: seq<Variant>)
    ensures |EntryLines(vs)| == 2 * |vs|
    ensures forall i :: 0 <= i < |vs| ==>
      EntryLines(vs)[2 * i] == StreamInf(vs[i]) && EntryLines(vs)[2 * i + 1] == StreamName(vs[i])
    decreases |vs|
  {
    if vs != [] {
      var init := vs[..|vs| - 1];
      EntryLinesAt(init);
      var e := EntryLines(vs);
      forall i | 0 <= i < |vs|
        ensures e[2 * i] == StreamInf(vs[i]) && e[2 * i + 1] == StreamName(vs[i])
      {
        if i < |vs| - 1 {
          assert vs[i] == init[i];
          assert e[2 * i] == EntryLines(init)[2 * i];
          assert e[2 * i + 1] == EntryLines(init)[2 * i + 1];
        }
      }
    }
  }

  /** No field of the variant holds a line break, so every tag line is one line. */
  predicate SingleLineFields(v: Variant) {
    NoLineBreak(v.name) && NoLineBreak(v.height) && NoLineBreak(v.vbitrate) && NoLineBreak(v.width)
  }

  lemma StreamLinesHaveNoBreak(v: Variant)
    requires SingleLineFields(v)
    ensures NoLineBreak(StreamInf(v)) && NoLineBreak(StreamName(v))
  {
    var t := TrimSuffix(v.vbitrate, "k");
    assert forall c :: c in t ==> c in v.vbitrate by {
      if HasSuffix(v.vbitrate, "k") {
        assert v.vbitrate == t + "k";
      }
    }
  }

  lemma ManifestIsJoinedLines(vs: seq<Variant>)
    ensures Manifest(vs) == JoinLines(ManifestLines(vs))
  {
    EntriesAreJoinedLines(vs);
    JoinLinesAppend(HeaderLines, EntryLines(vs));
    HeaderIsJoinedLines();
  }

  lemma HeaderIsJoinedLines()
    ensures JoinLines(HeaderLines) == Header
  {
    assert HeaderLines[1..] == ["#EXT-X-VERSION:3"];
    assert JoinLines(["#EXT-X-VERSION:3"]) == "#EXT-X-VERSION:3\n";
  }

  lemma ManifestLinesAreSingle(vs: seq<Variant>)
    requires forall v :: v in vs ==> SingleLineFields(v)
    ensures forall l :: l in ManifestLines(vs) ==> NoLineBreak(l)
  {
    var ml := ManifestLines(vs);
    EntryLinesAt(vs);
    forall l | l in ml ensures NoLineBreak(l) {
      var j :| 0 <= j < |ml| && ml[j] == l;
      if j >= 2 {
        var i := (j - 2) / 2;
        assert vs[i] in vs;
        StreamLinesHaveNoBreak(vs[i]);
        assert j == 2 + 2 * i || j == 3 + 2 * i;
      } else {
        assert l == "#EXTM3U" || l == "#EXT-X-VERSION:3";
      }
    }
  }

  /** The master playlist is the header lines followed, for each variant in
      order, by its tag line and then its sub-playlist name: 2 + 2|vs| lines. */
  lemma ManifestStructure(vs: seq<Variant>)
    requires forall v :: v in vs ==> SingleLineFields(v)
    ensures Manifest(vs)[..|Header|] == "#EXTM3U\n#EXT-X-VERSION:3\n"
    ensures SplitLines(Manifest(vs)) == ManifestLines(vs)
    ensures |ManifestLines(vs)| == 2 + 2 * |vs|
    ensures ManifestLines(vs)[0] == "#EXTM3U" && ManifestLines(vs)[1] == "#EXT-X-VERSION:3"
    ensures forall i :: 0 <= i < |vs| ==>
      ManifestLines(vs)[2 + 2 * i] == StreamInf(vs[i]) && ManifestLines(vs)[3 + 2 * i] == StreamName(vs[i])
  {
    EntryLinesAt(vs);
    ManifestIsJoinedLines(vs);
    ManifestLinesAreSingle(vs);
    SplitJoinLines(ManifestLines(vs));
  }

  // ---------------------------------------------------------------- variant table

  /** The table holds the four variants 360p, 540p, 720p, 1080p, in that
      order, with bandwidths 800000, 1800000, 3500000 and 6000000. */
  lemma VariantTable()
    ensures |HlsVariants| == 4
    ensures HlsVariants[0].name == "360p" && Bandwidth(HlsVariants[0]) == "800000"
    ensures HlsVariants[1].name == "540p" && Bandwidth(HlsVariants[1]) == "1800000"
    ensures HlsVariants[2].name == "720p" && Bandwidth(HlsVariants[2]) == "3500000"
    ensures HlsVariants[3].name == "1080p" && Bandwidth(HlsVariants[3]) == "6000000"
    ensures forall v :: v in HlsVariants ==> SingleLineFields(v)
  {
    assert "800k"[..3] == "800";
    assert "1800k"[..4] == "1800";
    assert "3500k"[..4] == "3500";
    assert "6000k"[..4] == "6000";
  }

  /** A bitrate of decimal kilobits per second becomes a bandwidth of decimal
      bits per second: the value is multiplied by 1000. */
  lemma BandwidthInBitsPerSecond(v: Variant, kbps: string)
    requires AllDigits(kbps) && v.vbitrate == kbps + "k"
    ensures AllDigits(Bandwidth(v))
    ensures DecimalValue(Bandwidth(v)) == 1000 * DecimalValue(kbps)
  {
    assert TrimSuffix(v.vbitrate, "k") == kbps;
    DecimalValueTimesThousand(kbps);
  }

  // ---------------------------------------------------------------- orchestration

  /** What one run of the external encoder for one variant reports: success,
      with the number of segment files it wrote, or failure, with whatever files
      it had written before it failed. */
  datatype Encoding = Encoded(segments: nat) | Failed(leftovers: set<string>)

  /** The encoder's answer for the variant at each position of the table. */
  type Encoder = nat -> Encoding

  function SegmentNames(name: string, count: nat): set<string> {
    set k | 0 <= k < count :: SegmentName(name, k)
  }

  /** The files a successful encode of `v` writes: its sub-playlist and its segments. */
  function VariantOutput(v: Variant, segments: nat): set<string> {
    {StreamName(v)} + SegmentNames(v.name, segments)
  }

  /** A directory after the encoder has (over)written the files `names`. */
  function WithEncoderOutput(files: map<string, Content>, names: set<string>): map<string, Content> {
    map f | f in files.Keys + names :: if f in names then EncoderOutput else files[f]
  }

  lemma WithEncoderOutputMeaning(files: map<string, Content>, names: set<string>)
    ensures forall f :: f in WithEncoderOutput(files, names) <==> f in files || f in names
    ensures forall f :: f in names ==> WithEncoderOutput(files, names)[f] == EncoderOutput
    ensures forall f :: f in files && f !in names ==> WithEncoderOutput(files, names)[f] == files[f]
  {
  }

  /** The position of the first of the first `n` variants whose encode fails,
      or `n` when they all succeed. */
  function FirstFailure(encode: Encoder, n: nat): (k: nat)
    ensures k <= n
    ensures forall j :: 0 <= j < k ==> encode(j).Encoded?
    ensures k < n ==> encode(k).Failed?
    decreases n
  {
    if n == 0 then 0
    else
      var k := FirstFailure(encode, n - 1);
      if k < n - 1 then k else if encode(n - 1).Failed? then n - 1 else n
  }

  predicate AllEncoded(vs: seq<Variant>, encode: Encoder) {
    forall j :: 0 <= j < |vs| ==> encode(j).Encoded?
  }

  /** The files one encoder run writes: a variant's output on success, the
      partial files on failure. */
  function RunOutput(v: Variant, result: Encoding): set<string> {
    match result
    case Encoded(segments) => VariantOutput(v, segments)
    case Failed(leftovers) => leftovers
  }

  lemma RunOutputOfEncoded(v: Variant, result: Encoding)
    requires result.Encoded?
    ensures RunOutput(v, result) == VariantOutput(v, result.segments)
  {
  }

  /** The files of a job directory, fresh at the start of the run, once the
      encoder has run for the first `i` variants. */
  function EncodedFiles(vs: seq<Variant>, encode: Encoder, i: nat): map<string, Content>
    requires i <= |vs|
    decreases i
  {
    if i == 0 then map[]
    else WithEncoderOutput(EncodedFiles(vs, encode, i - 1), RunOutput(vs[i - 1], encode(i - 1)))
  }

  /** The files after `i` encoder runs are exactly what those runs wrote, all
      of it encoder output. */
  lemma {:induction false} EncodedFilesMeaning(vs: seq<Variant>, encode: Encoder, i: nat)
    requires i <= |vs|
    ensures forall f :: f in EncodedFiles(vs, encode, i) ==> EncodedFiles(vs, encode, i)[f] == EncoderOutput
    ensures forall f :: f in EncodedFiles(vs, encode, i) <==>
      exists j :: 0 <= j < i && f in RunOutput(vs[j], encode(j))
    decreases i
  {
    if i > 0 {
      EncodedFilesMeaning(vs, encode, i - 1);
      var files := EncodedFiles(vs, encode, i);
      var last := RunOutput(vs[i - 1], encode(i - 1));
      var prev := EncodedFiles(vs, encode, i - 1);
      WithEncoderOutputMeaning(prev, last);
      forall f
        ensures f in files <==> exists j :: 0 <= j < i && f in RunOutput(vs[j], encode(j))
      {
        if f in files {
          if f in last {
            assert f in RunOutput(vs[i - 1], encode(i - 1));
          } else {
            assert f in prev;
            var j :| 0 <= j < i - 1 && f in RunOutput(vs[j], encode(j));
            assert 0 <= j < i;
          }
        }
        if exists j :: 0 <= j < i && f in RunOutput(vs[j], encode(j)) {
          var j :| 0 <= j < i && f in RunOutput(vs[j], encode(j));
          if j < i - 1 {
            assert f in prev;
          }
        }
      }
    }
  }

  /** Once a failure is found among the first `m` runs, looking further does
      not change which run failed first. */
  lemma {:induction false} FirstFailureStable(encode: Encoder, m: nat, n: nat)
    requires m <= n && FirstFailure(encode, m) < m
    ensures FirstFailure(encode, n) == FirstFailure(encode, m)
    decreases n
  {
    if n > m {
      FirstFailureStable(encode, m, n - 1);
    }
  }

  /** The HLS root after one conversion run for job `id` that writes `manifest`
      as its master playlist: the job's directory holds every variant's files
      plus the master playlist when every encode and the playlist write
      succeeded, and is gone otherwise. */
  function ConvertOutcome(hls: Area, vs: seq<Variant>, id: string, encode: Encoder, written: bool, manifest: string): Area {
    if FirstFailure(encode, |vs|) < |vs| || !written then RemoveAll(hls, id)
    else hls[id := Dir(EncodedFiles(vs, encode, |vs|)[MasterPlaylist := Text(manifest)])]
  }

  /** The names of the variants, in order. */
  function Names(vs: seq<Variant>): (names: seq<string>)
    ensures |names| == |vs| && forall i :: 0 <= i < |vs| ==> names[i] == vs[i].name
    decreases |vs|
  {
    if vs == [] then [] else Names(vs[..|vs| - 1]) + [vs[|vs| - 1].name]
  }

  lemma NamesStep(vs: seq<Variant>, i: nat)
    requires i < |vs|
    ensures Names(vs[..i + 1]) == Names(vs[..i]) + [vs[i].name]
  {
    assert vs[..i + 1][..i] == vs[..i];
  }

  /** The variants the encoder is started for, in order: up to and including
      the first that fails. */
  function Attempted(vs: seq<Variant>, encode: Encoder): seq<string> {
    var k := FirstFailure(encode, |vs|);
    Names(vs[..if k < |vs| then k + 1 else k])
  }

  /** The HLS output root: one directory per job, named by the job's id. */
  class HlsRoot {
    /** The job directories under the root. */
    var dirs: Area
    /** The package's variant table, which every run reads. */
    var variants: seq<Variant>

    constructor (initial: Area)
      ensures dirs == initial && variants == HlsVariants
    {
      dirs := initial;
      variants := HlsVariants;
    }

    /** Converts the upload at `inputPath` for job `id`: wipes and recreates
        the job directory, encodes the variants in table order until one fails,
        and on success writes the master playlist last; any failure removes the
        directory. The encoder's answers stand for the subprocess runs on
        `inputPath`; `written` says whether writing the master playlist
        succeeds. Returns the names of the variants the encoder was started for.
        `id` names an entry under the root: the only caller starts a run only
        when the joined output path is not the root or its parent. */
    method ConvertToHLS(inputPath: string, id: string, encode: Encoder, written: bool)
      returns (attempted: seq<string>)
      requires NamesEntry(id)
      modifies this`dirs
      ensures dirs == ConvertOutcome(old(dirs), variants, id, encode, written, Manifest(variants))
      ensures attempted == Attempted(variants, encode)
    {
      dirs := RemoveAll(dirs, id);
      dirs := dirs[id := Dir(map[])];
      assert dirs == old(dirs)[id := Dir(EncodedFiles(variants, encode, 0))];
      var success := true;
      attempted := [];
      var i := 0;
      while i < |variants|
        invariant 0 <= i <= |variants|
        invariant FirstFailure(encode, i) == i
        invariant dirs == old(dirs)[id := Dir(EncodedFiles(variants, encode, i))]
        invariant attempted == Names(variants[..i])
      {
        var v := variants[i];
        NamesStep(variants, i);
        attempted := attempted + [v.name];
        var result := encode(i);
        ReplaceEntry(old(dirs), dirs, id, EncodedFiles(variants, encode, i), EncodedFiles(variants, encode, i + 1));
        dirs := dirs[id := Dir(WithEncoderOutput(dirs[id].children, RunOutput(v, result)))];
        if result.Failed? {
          success := false;
          break;
        }
        i := i + 1;
      }
      if !success {
        FailedRun(old(dirs), dirs, variants, id, encode, i, written, Manifest(variants));
        dirs := RemoveAll(dirs, id);
        return;
      }
      var manifest := BuildManifest(variants);
      AllAttempted(variants, encode);
      EncodedRun(old(dirs), dirs, variants, id, encode, written, manifest);
      if !written {
        dirs := RemoveAll(dirs, id);
        return;
      }
      dirs := dirs[id := Dir(dirs[id].children[MasterPlaylist := Text(manifest)])];
    }
  }

  lemma ReplaceEntry(hls: Area, dirs: Area, id: string, files: map<string, Content>, files': map<string, Content>)
    requires dirs == hls[id := Dir(files)]
    ensures dirs[id := Dir(files')] == hls[id := Dir(files')]
    ensures dirs[id].children == files
  {
  }

  lemma RemoveReplaced(hls: Area, dirs: Area, id: string, files: map<string, Content>)
    requires dirs == hls[id := Dir(files)]
    ensures RemoveAll(dirs, id) == RemoveAll(hls, id)
  {
  }

  lemma FinishEntry(hls: Area, dirs: Area, id: string, files: map<string, Content>, master: Content)
    requires dirs == hls[id := Dir(files)]
    ensures dirs[id := Dir(dirs[id].children[MasterPlaylist := master])] == hls[id := Dir(files[MasterPlaylist := master])]
  {
  }

  lemma AllAttempted(vs: seq<Variant>, encode: Encoder)
    requires FirstFailure(encode, |vs|) == |vs|
    ensures Attempted(vs, encode) == Names(vs[..|vs|])
  {
  }

  /** A run whose encodes all succeed ends as ConvertOutcome says. */
  lemma EncodedRun(hls: Area, dirs: Area, vs: seq<Variant>, id: string, encode: Encoder, written: bool, manifest: string)
    requires FirstFailure(encode, |vs|) == |vs|
    requires dirs == hls[id := Dir(EncodedFiles(vs, encode, |vs|))]
    ensures !written ==> RemoveAll(dirs, id) == ConvertOutcome(hls, vs, id, encode, written, manifest)
    ensures written ==>
      dirs[id := Dir(dirs[id].children[MasterPlaylist := Text(manifest)])]
      == ConvertOutcome(hls, vs, id, encode, written, manifest)
  {
    if written {
      FinishEntry(hls, dirs, id, EncodedFiles(vs, encode, |vs|), Text(manifest));
    } else {
      RemoveReplaced(hls, dirs, id, EncodedFiles(vs, encode, |vs|));
    }
  }

  /** A run whose encode of variant `i` fails ends as ConvertOutcome says. */
  lemma FailedRun(hls: Area, dirs: Area, vs: seq<Variant>, id: string, encode: Encoder, i: nat, written: bool, manifest: string)
    requires i < |vs| && FirstFailure(encode, i) == i && encode(i).Failed?
    requires dirs == hls[id := Dir(EncodedFiles(vs, encode, i + 1))]
    ensures RemoveAll(dirs, id) == ConvertOutcome(hls, vs, id, encode, written, manifest)
    ensures Attempted(vs, encode) == Names(vs[..i + 1])
  {
    FirstFailureStable(encode, i + 1, |vs|);
    RemoveReplaced(hls, dirs, id, EncodedFiles(vs, encode, i + 1));
  }

  // ---------------------------------------------------------------- properties of a run

  /** No file an encode writes is named like the master playlist, so a
      directory holding only encoder output reads as Processing. */
  lemma MasterIsNoVariantFile(v: Variant, segments: nat)
    ensures MasterPlaylist !in VariantOutput(v, segments)
  {
    assert StreamName(v)[0] == 's';
  }

  lemma VariantOutputsAreNotMaster(vs: seq<Variant>, encode: Encoder, i: nat)
    requires i <= |vs|
    requires forall j :: 0 <= j < i ==> encode(j).Encoded?
    ensures MasterPlaylist !in EncodedFiles(vs, encode, i)
  {
    EncodedFilesMeaning(vs, encode, i);
    forall j | 0 <= j < i ensures MasterPlaylist !in VariantOutput(vs[j], encode(j).segments) {
      MasterIsNoVariantFile(vs[j], encode(j).segments);
    }
  }

  /** The first failing encode ends the run: the variants attempted are a
      prefix of the table, every one before the last succeeded, and the run
      stops early only at a failure. */
  lemma AttemptedStopsAtFirstFailure(vs: seq<Variant>, encode: Encoder)
    ensures var a := Attempted(vs, encode);
      |a| <= |vs| && a == Names(vs)[..|a|] &&
      (forall j :: 0 <= j < |a| - 1 ==> encode(j).Encoded?) &&
      (|a| == |vs| || encode(|a| - 1).Failed?) &&
      (AllEncoded(vs, encode) <==> |a| == |vs| && (|a| == 0 || encode(|a| - 1).Encoded?))
  {
  }

  /** After a run the job is Ready exactly when every variant encoded and the
      master playlist was written, and Absent otherwise: a run never leaves a
      job Processing. */
  lemma ConvertStatus(hls: Area, vs: seq<Variant>, id: string, encode: Encoder, written: bool, manifest: string, after: Area)
    requires NamesEntry(id)
    requires after == ConvertOutcome(hls, vs, id, encode, written, manifest)
    ensures StatusOf(after, id) == Ready <==> AllEncoded(vs, encode) && written
    ensures StatusOf(after, id) == Absent <==> !(AllEncoded(vs, encode) && written)
  {
    if AllEncoded(vs, encode) && written {
      VariantOutputsAreNotMaster(vs, encode, |vs|);
    }
  }

  /** A successful run leaves exactly the master playlist, holding the
      composed playlist text, and the files of every variant: nothing from
      before the run survives, and every sub-playlist the master names exists. */
  lemma ConvertedContents(hls: Area, vs: seq<Variant>, id: string, encode: Encoder, written: bool, manifest: string, after: Area)
    requires NamesEntry(id)
    requires AllEncoded(vs, encode) && written
    requires after == ConvertOutcome(hls, vs, id, encode, written, manifest)
    ensures IsDir(after, id) && MasterPlaylist in after[id].children
    ensures after[id].children[MasterPlaylist] == Text(manifest)
    ensures forall f :: f in after[id].children <==>
      f == MasterPlaylist || exists j :: 0 <= j < |vs| && f in VariantOutput(vs[j], encode(j).segments)
    ensures forall f :: f in after[id].children && f != MasterPlaylist ==> after[id].children[f] == EncoderOutput
    ensures forall j :: 0 <= j < |vs| ==> StreamName(vs[j]) in after[id].children
  {
    var files := after[id].children;
    assert files == EncodedFiles(vs, encode, |vs|)[MasterPlaylist := Text(manifest)];
    EncodedFilesMeaning(vs, encode, |vs|);
    FinishedFileNames(vs, encode, manifest, files);
    forall j | 0 <= j < |vs| ensures StreamName(vs[j]) in files {
      assert StreamName(vs[j]) in VariantOutput(vs[j], encode(j).segments);
    }
  }

  /** The names in a finished job directory: the master playlist and the
      files the encodes wrote. */
  lemma FinishedFileNames(vs: seq<Variant>, encode: Encoder, manifest: string, files: map<string, Content>)
    requires AllEncoded(vs, encode)
    requires files == EncodedFiles(vs, encode, |vs|)[MasterPlaylist := Text(manifest)]
    ensures forall f :: f in files <==>
      f == MasterPlaylist || exists j :: 0 <= j < |vs| && f in VariantOutput(vs[j], encode(j).segments)
  {
    var encoded := EncodedFiles(vs, encode, |vs|);
    EncodedFilesMeaning(vs, encode, |vs|);
    forall f | f != MasterPlaylist
      ensures f in files <==> exists j :: 0 <= j < |vs| && f in VariantOutput(vs[j], encode(j).segments)
    {
      assert f in files <==> f in encoded;
      if f in encoded {
        var j :| 0 <= j < |vs| && f in RunOutput(vs[j], encode(j));
        RunOutputOfEncoded(vs[j], encode(j));
      }
      if exists j :: 0 <= j < |vs| && f in VariantOutput(vs[j], encode(j).segments) {
        var j :| 0 <= j < |vs| && f in VariantOutput(vs[j], encode(j).segments);
        RunOutputOfEncoded(vs[j], encode(j));
      }
    }
  }

  /** A run changes no other job's directory. */
  lemma ConvertIsolated(hls: Area, vs: seq<Variant>, id: string, encode: Encoder, written: bool, manifest: string, after: Area)
    requires NamesEntry(id)
    requires after == ConvertOutcome(hls, vs, id, encode, written, manifest)
    ensures forall other :: other != id ==> (other in after <==> other in hls)
    ensures forall other :: other != id && other in hls ==> after[other] == hls[other]
  {
  }

  /** What a run leaves for the job does not depend on what was there before:
      a re-run replaces a previous run's directory entirely. */
  lemma ConvertForgetsPreviousRun(hls1: Area, hls2: Area, vs: seq<Variant>, id: string, encode: Encoder, written: bool, manifest: string)
    requires NamesEntry(id)
    ensures var a1, a2 := ConvertOutcome(hls1, vs, id, encode, written, manifest), ConvertOutcome(hls2, vs, id, encode, written, manifest);
      (id in a1 <==> id in a2) && (id in a1 ==> a1[id] == a2[id])
  {
  }
}
