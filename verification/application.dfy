/** The orchestration of the analysis run: start-up checks and the choice of
    reader per format tag, the split of the file list among worker threads,
    the per-slice loop each worker runs, and the construction of output file
    names. Reading and writing files, starting threads and the parameter file
    are not modelled: what they report enters as parameters. */
module Application {
  import opened Wrappers
  import opened Particles

  /** The six snapshot readers; `formatted` picks the text variant. */
  datatype FileKind = Seren(formatted: bool) | Dragon(formatted: bool) | Columns | Sinks

  /** The reader an input format tag selects, if any. */
  function ParseFormat(tag: string): (r: Option<FileKind>)
    ensures r.Some? <==> tag in ["su", "sf", "du", "df", "column", "sink"]
  {
    if tag == "su" then Some(Seren(false))
    else if tag == "sf" then Some(Seren(true))
    else if tag == "du" then Some(Dragon(false))
    else if tag == "df" then Some(Dragon(true))
    else if tag == "column" then Some(Columns)
    else if tag == "sink" then Some(Sinks)
    else None
  }

  /** The tag that selects a reader. */
  function FormatTag(k: FileKind): string
  {
    match k
    case Seren(f) => if f then "sf" else "su"
    case Dragon(f) => if f then "df" else "du"
    case Columns => "column"
    case Sinks => "sink"
  }

  /** Every reader has exactly one tag: parsing a reader's tag gives that
      reader back, and a tag that parses is that reader's tag. */
  lemma FormatTagRoundTrip(k: FileKind, tag: string)
    ensures ParseFormat(FormatTag(k)) == Some(k)
    ensures ParseFormat(tag) == Some(k) ==> tag == FormatTag(k)
  {
  }

  datatype SnapshotFile = SnapshotFile(name: NameData, kind: FileKind)

  datatype InitError = NoParameterFile | ThreadsNotDetected | OpacityTableUnreadable | UnrecognisedFormat | NoFiles

  datatype Setup = Setup(threads: int, files: seq<SnapshotFile>)

  /** A requested thread count below zero or above the hardware's becomes the
      hardware's; any other request, zero included, is kept. */
  function ClampThreads(requested: int, hardware: int): (r: int)
    ensures hardware >= 0 ==> 0 <= r <= hardware
    ensures 0 <= requested <= hardware ==> r == requested
    ensures r == requested || r == hardware
  {
    if requested < 0 || requested > hardware then hardware else requested
  }

  /** The name fields of the file the generator hands to the analysis. */
  const GeneratedName: NameData := NameData("./", "SPA", "column", "00000", "")

  /** The input files named on the command line: every argument but the
      first (the parameter file) and the last. */
  function InputFiles(args: seq<string>, kind: FileKind, extract: string -> NameData): (r: seq<SnapshotFile>)
    requires |args| >= 2
    ensures |r| == |args| - 2
    ensures forall i :: 1 <= i < |args| - 1 ==> r[i - 1] == SnapshotFile(extract(args[i]), kind)
  {
    seq(|args| - 2, i requires 0 <= i < |args| - 2 => SnapshotFile(extract(args[i + 1]), kind))
  }

  /** Start-up. `hardware` is the detected hardware concurrency,
      `opacityRead` whether the opacity table could be read, `generate`
      whether a disc is to be generated first, and `extract` the file-name
      parser. The failures come in the source's order. */
  function Initialise(args: seq<string>, requestedThreads: int, hardware: int, opacityRead: bool,
                      generate: bool, inFormat: string, extract: string -> NameData): (r: Result<Setup, InitError>)
    ensures r.Ok? <==>
              && |args| >= 2 && hardware > 0 && opacityRead
              && (|args| > 2 ==> ParseFormat(inFormat).Some?)
              && (generate || |args| > 2)
    ensures |args| < 2 ==> r == Err(NoParameterFile)
    ensures |args| >= 2 && hardware <= 0 ==> r == Err(ThreadsNotDetected)
    ensures |args| >= 2 && hardware > 0 && !opacityRead ==> r == Err(OpacityTableUnreadable)
    ensures |args| > 2 && hardware > 0 && opacityRead && ParseFormat(inFormat).None? ==> r == Err(UnrecognisedFormat)
    ensures |args| == 2 && hardware > 0 && opacityRead && !generate ==> r == Err(NoFiles)
    ensures r.Ok? ==> r.value.threads == ClampThreads(requestedThreads, hardware)
    ensures r.Ok? ==> 0 <= r.value.threads <= hardware
    ensures r.Ok? ==> |r.value.files| >= 1
    ensures r.Ok? ==> |r.value.files| == (if generate then 1 else 0) + |args| - 2
    ensures r.Ok? && generate ==> r.value.files[0] == SnapshotFile(GeneratedName, Seren(false))
    ensures r.Ok? ==> forall i :: 1 <= i < |args| - 1 ==>
              r.value.files[(if generate then 1 else 0) + i - 1] == SnapshotFile(extract(args[i]), ParseFormat(inFormat).value)
  {
    if |args| < 2 then Err(NoParameterFile)
    else if hardware <= 0 then Err(ThreadsNotDetected)
    else if !opacityRead then Err(OpacityTableUnreadable)
    else
      var threads := ClampThreads(requestedThreads, hardware);
      var generated := if generate then [SnapshotFile(GeneratedName, Seren(false))] else [];
      if |args| == 2 then
        if generated == [] then Err(NoFiles) else Ok(Setup(threads, generated))
      else
        match ParseFormat(inFormat)
        case None => Err(UnrecognisedFormat)
        case Some(kind) => Ok(Setup(threads, generated + InputFiles(args, kind, extract)))
  }

  /** A worker's half-open range of file indices. */
  datatype Slice = Slice(start: nat, end: nat)

  /** Where slice `k` starts when each slice holds `share` files and the
      first `extra` slices one more. */
  function SliceStart(k: nat, share: nat, extra: nat): nat
  {
    if k == 0 then 0 else SliceStart(k - 1, share, extra) + share + (if k - 1 < extra then 1 else 0)
  }

  /** Slice `k` starts after `k` full shares and one extra file for each of
      the earlier slices that takes one. */
  lemma {:induction false} SliceStartClosedForm(k: nat, share: nat, extra: nat)
    ensures SliceStart(k, share, extra) == k * share + (if k < extra then k else extra)
  {
    if k > 0 {
      SliceStartClosedForm(k - 1, share, extra);
      assert k * share == (k - 1) * share + share;
    }
  }

  /** The last slice ends at the last file. */
  lemma SliceStartEnd(n: nat, w: nat)
    requires w >= 1
    ensures SliceStart(w, n / w, n % w) == n
  {
    SliceStartClosedForm(w, n / w, n % w);
    assert n == w * (n / w) + n % w;
  }

  /** Slice `k` of a split in which each slice holds `share` files and the
      first `extra` slices one more. */
  function PlannedSlice(k: nat, share: nat, extra: nat): Slice
  {
    Slice(SliceStart(k, share, extra), SliceStart(k + 1, share, extra))
  }

  predicate InSlice(f: nat, s: Slice)
  {
    s.start <= f < s.end
  }

  /** Splits `n` files among the threads as the run loop does: the thread
      count drops to the file count when there are fewer files, each worker
      gets `n / w` files, and the first `n % w` workers one more. */
  method Partition(n: nat, threads: nat) returns (w: nat, slices: seq<Slice>)
    requires n >= 1 && threads >= 1
    ensures w == (if n < threads then n else threads)
    ensures |slices| == w >= 1
    ensures slices[0].start == 0 && slices[w - 1].end == n
    ensures forall k :: 0 <= k < w - 1 ==> slices[k].end == slices[k + 1].start
    ensures forall k :: 0 <= k < w ==>
              slices[k].start <= slices[k].end
              && slices[k].end - slices[k].start == n / w + (if k < n % w then 1 else 0)
    ensures forall k :: 0 <= k < w ==> slices[k] == PlannedSlice(k, n / w, n % w)
  {
    w := threads;
    if n < w {
      w := n;
    }
    var perThread := n / w;
    // The header does not declare the counter's type; it is taken as a
    // signed int, so decrementing it below zero does not wrap.
    var remainder: int := n % w;
    slices := [];
    var pos := 0;
    var i := 0;
    while i < w
      invariant 0 <= i <= w
      invariant |slices| == i
      invariant pos == SliceStart(i, perThread, n % w)
      invariant remainder == n % w - i
      invariant forall k :: 0 <= k < i ==> slices[k] == PlannedSlice(k, perThread, n % w)
    {
      var start := pos;
      var end := pos + perThread + (if remainder > 0 then 1 else 0);
      pos := end;
      remainder := remainder - 1;
      slices := slices + [Slice(start, end)];
      i := i + 1;
    }
    SliceStartEnd(n, w);
    assert slices[w - 1] == PlannedSlice(w - 1, perThread, n % w);
    forall k | 0 <= k < w - 1
      ensures slices[k].end == slices[k + 1].start
    {
      assert slices[k] == PlannedSlice(k, perThread, n % w);
      assert slices[k + 1] == PlannedSlice(k + 1, perThread, n % w);
    }
    forall k | 0 <= k < w
      ensures slices[k].end == slices[k].start + n / w + (if k < n % w then 1 else 0)
    {
      assert slices[k] == PlannedSlice(k, perThread, n % w);
      assert SliceStart(k + 1, perThread, n % w) == SliceStart(k, perThread, n % w) + perThread + (if k < n % w then 1 else 0);
    }
  }

  lemma {:induction false} SliceStartMonotone(j: nat, k: nat, share: nat, extra: nat)
    requires share >= 1 && j <= k
    ensures SliceStart(j, share, extra) + (k - j) <= SliceStart(k, share, extra)
    decreases k - j
  {
    if j < k {
      SliceStartMonotone(j, k - 1, share, extra);
    }
  }

  /** With at least one file per slice, a position before the end of the
      last slice lies in exactly one slice. */
  lemma OneSliceOwns(share: nat, extra: nat, w: nat, f: nat)
    requires share >= 1 && f < SliceStart(w, share, extra)
    ensures exists k :: 0 <= k < w && InSlice(f, PlannedSlice(k, share, extra))
    ensures forall j, k ::
              0 <= j < w && 0 <= k < w && InSlice(f, PlannedSlice(j, share, extra)) && InSlice(f, PlannedSlice(k, share, extra))
              ==> j == k
  {
    FindWorker(share, extra, w, f, 0);
    forall j, k | 0 <= j < w && 0 <= k < w && InSlice(f, PlannedSlice(j, share, extra)) && InSlice(f, PlannedSlice(k, share, extra))
      ensures j == k
    {
      if j < k {
        SliceStartMonotone(j + 1, k, share, extra);
      } else if k < j {
        SliceStartMonotone(k + 1, j, share, extra);
      }
    }
  }

  /** Every file index belongs to exactly one worker's slice. */
  lemma EveryFileHasOneWorker(n: nat, w: nat, f: nat)
    requires 1 <= w <= n && f < n
    ensures exists k :: 0 <= k < w && InSlice(f, PlannedSlice(k, n / w, n % w))
    ensures forall j, k ::
              0 <= j < w && 0 <= k < w && InSlice(f, PlannedSlice(j, n / w, n % w)) && InSlice(f, PlannedSlice(k, n / w, n % w))
              ==> j == k
  {
    assert n / w >= 1 by {
      assert n == w * (n / w) + n % w;
    }
    SliceStartEnd(n, w);
    OneSliceOwns(n / w, n % w, w, f);
  }

  lemma {:induction false} FindWorker(share: nat, extra: nat, w: nat, f: nat, k: nat)
    requires k <= w && SliceStart(k, share, extra) <= f < SliceStart(w, share, extra)
    ensures exists j :: k <= j < w && InSlice(f, PlannedSlice(j, share, extra))
    decreases w - k
  {
    if k == w {
      assert false;
    } else if f >= SliceStart(k + 1, share, extra) {
      FindWorker(share, extra, w, f, k + 1);
    } else {
      assert InSlice(f, PlannedSlice(k, share, extra));
    }
  }

  /** The indices a worker gets through: `start`, `start + 1`, … in order,
      stopping short of `end`, or at the first file that cannot be read when
      no generator supplied the data. With a generator no file is read at
      all. `generated` is the generator test (taken to fail when none was
      created), and `readOk` says which reads succeed. */
  function AnalyseSlice(start: nat, end: nat, generated: bool, readOk: nat -> bool): (r: seq<nat>)
    ensures |r| <= end - start || (end < start && r == [])
    ensures forall k :: 0 <= k < |r| ==> r[k] == start + k && r[k] < end
    ensures forall k :: 0 <= k < |r| ==> generated || readOk(r[k])
    ensures start + |r| < end ==> !generated && !readOk(start + |r|)
    decreases end - start
  {
    if start >= end then []
    else if !generated && !readOk(start) then []
    else [start] + AnalyseSlice(start + 1, end, generated, readOk)
  }

  /** What all workers get through together, slice after slice. */
  function AnalyseAll(slices: seq<Slice>, generated: bool, readOk: nat -> bool): seq<nat>
  {
    if slices == [] then []
    else AnalyseSlice(slices[0].start, slices[0].end, generated, readOk) + AnalyseAll(slices[1..], generated, readOk)
  }

  /** When every read succeeds (or a generator supplied the data), the
      workers between them analyse every file exactly once: in slice order
      the analysed indices are 0, 1, …, n - 1. */
  lemma {:induction false} AllFilesAnalysed(slices: seq<Slice>, n: nat, generated: bool, readOk: nat -> bool)
    requires |slices| >= 1 && slices[0].start == 0 && slices[|slices| - 1].end == n
    requires forall k :: 0 <= k < |slices| - 1 ==> slices[k].end == slices[k + 1].start
    requires forall k :: 0 <= k < |slices| ==> slices[k].start <= slices[k].end
    requires generated || forall f :: 0 <= f < n ==> readOk(f)
    ensures AnalyseAll(slices, generated, readOk) == seq(n, f => f)
  {
    AnalyseFrom(slices, 0, n, generated, readOk);
  }

  lemma {:induction false} AnalyseFrom(slices: seq<Slice>, from: nat, n: nat, generated: bool, readOk: nat -> bool)
    requires |slices| >= 1 && slices[0].start == from && slices[|slices| - 1].end == n
    requires forall k :: 0 <= k < |slices| - 1 ==> slices[k].end == slices[k + 1].start
    requires forall k :: 0 <= k < |slices| ==> slices[k].start <= slices[k].end
    requires generated || forall f :: from <= f < n ==> readOk(f)
    ensures from <= n
    ensures AnalyseAll(slices, generated, readOk) == seq(n - from, f => from + f)
    decreases |slices|
  {
    var s := slices[0];
    var head := AnalyseSlice(s.start, s.end, generated, readOk);
    if |slices| == 1 {
      assert slices[1..] == [];
    } else {
      assert slices[1..][0] == slices[1];
      AnalyseFrom(slices[1..], s.end, n, generated, readOk);
    }
  }

  /** The writer chosen for an output format: only three of the six formats
      can be written; for any other the file is silently not written. */
  function Writer(format: string): (r: Option<FileKind>)
    ensures r.Some? <==> format in ["df", "su", "column"]
  {
    if format == "df" then Some(Dragon(true))
    else if format == "su" then Some(Seren(false))
    else if format == "column" then Some(Columns)
    else None
  }

  /** A format that can be written is read back by the reader its tag
      selects. */
  lemma WriterMatchesReader(format: string)
    ensures Writer(format).Some? ==> ParseFormat(format) == Writer(format)
  {
  }

  /** The name a file is renamed to before output when conversion is on. */
  function Converted(nd: NameData, convert: bool, outFormat: string): (r: NameData)
    ensures r.(format := nd.format) == nd
    ensures r.format == (if convert then outFormat else nd.format)
  {
    if convert then nd.(format := outFormat) else nd
  }

  datatype Target = Target(name: string, format: string)

  /** The output path and the format to write it in. With no explicit file
      name the path is `dir/id.format.snap` followed by the append suffix;
      an explicit file name is used as it is and forces the column format. */
  function OutputName(nd: NameData, fileName: string): (r: Target)
    ensures fileName != "" ==> r == Target(fileName, "column") && Writer(r.format) == Some(Columns)
    ensures fileName == "" ==> r.format == nd.format
  {
    if fileName == "" then Target(nd.dir + "/" + nd.id + "." + nd.format + "." + nd.snap + nd.append, nd.format)
    else Target(fileName, "column")
  }

  /** Splits `s` at its first dot. */
  function SplitAtDot(s: string): (r: Option<(string, string)>)
    ensures r.Some? ==> s == r.value.0 + "." + r.value.1 && '.' !in r.value.0
    ensures r.None? ==> '.' !in s
  {
    if s == [] then None
    else if s[0] == '.' then Some(([], s[1..]))
    else
      match SplitAtDot(s[1..])
      case None => None
      case Some(parts) => Some(([s[0]] + parts.0, parts.1))
  }

  lemma {:induction false} SplitAtDotFirst(a: string, b: string)
    requires '.' !in a
    ensures SplitAtDot(a + "." + b) == Some((a, b))
  {
    var s := a + "." + b;
    if a != [] {
      assert s[0] == a[0];
      assert s[1..] == a[1..] + "." + b;
      SplitAtDotFirst(a[1..], b);
      assert [a[0]] + a[1..] == a;
    }
  }

  datatype NameParts = NameParts(id: string, format: string, rest: string)

  /** Reads a default output name back: after `dir/`, the id runs to the first
      dot, the format to the next dot, and the snapshot number and suffix make
      up the rest. */
  function ParseOutputName(name: string, dir: string): (r: Option<NameParts>)
    ensures r.Some? ==> name == dir + "/" + r.value.id + "." + r.value.format + "." + r.value.rest
  {
    var prefix := dir + "/";
    if |name| < |prefix| || name[..|prefix|] != prefix then None
    else
      assert name == prefix + name[|prefix|..];
      match SplitAtDot(name[|prefix|..])
      case None => None
      case Some(first) =>
        match SplitAtDot(first.1)
        case None => None
        case Some(second) => Some(NameParts(first.0, second.0, second.1))
  }

  /** The default output name can be taken apart again, as long as the id
      and the format contain no dot. */
  lemma OutputNameRoundTrip(nd: NameData)
    requires '.' !in nd.id && '.' !in nd.format
    ensures ParseOutputName(OutputName(nd, "").name, nd.dir) == Some(NameParts(nd.id, nd.format, nd.snap + nd.append))
  {
    var prefix := nd.dir + "/";
    var name := OutputName(nd, "").name;
    var rest2 := nd.format + "." + (nd.snap + nd.append);
    var rest := nd.id + "." + rest2;
    assert name == prefix + rest;
    assert name[..|prefix|] == prefix;
    assert name[|prefix|..] == rest;
    SplitAtDotFirst(nd.id, rest2);
    SplitAtDotFirst(nd.format, nd.snap + nd.append);
  }
}
