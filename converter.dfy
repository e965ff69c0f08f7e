/**
 The converter: walk the tree, keep the files whose name ends with one of the
 requested suffixes, detect each one's encoding, rewrite the non-UTF-8 ones
 as UTF-8 in place, and report one record per classified file.
 */
module Converter {
  import opened Wrappers
  import opened Codecs
  import opened Detection
  import Utf8

  /** A file as the walk reports it: its directory and its name (the path is their join). */
  datatype Entry = Entry(dir: string, name: string)

  /** One step of the directory walk: a directory and the names of the files directly in it. */
  datatype Listing = Listing(root: string, files: seq<string>)

  /** The audit record of one classified file. */
  datatype ConversionRecord = ConversionRecord(
    directory: string, fileName: string, originalEncoding: string, targetEncoding: string)

  /** The contents of every file, by path. */
  type Files = map<Entry, seq<Utf8.byte>>

  /** The entries of one listing, in listing order. */
  function InDir(root: string, names: seq<string>): seq<Entry>
  {
    seq(|names|, k requires 0 <= k < |names| => Entry(root, names[k]))
  }

  /** Every file the walk yields, in the order the converter visits them. */
  function Entries(walk: seq<Listing>): seq<Entry>
  {
    if walk == [] then []
    else Entries(walk[..|walk| - 1]) + InDir(walk[|walk| - 1].root, walk[|walk| - 1].files)
  }

  // ---------------------------------------------------------------------------
  // The suffix filter

  /** `name.endswith(suffix)`: literal and case-sensitive; the empty suffix ends every name. */
  predicate EndsWith(name: string, suffix: string)
  {
    |suffix| <= |name| && name[|name| - |suffix|..] == suffix
  }

  /** A name ends with `suffix` exactly when it is something followed by `suffix`. */
  lemma EndsWithIsSuffix(name: string, suffix: string)
    ensures EndsWith(name, suffix) <==> exists front :: name == front + suffix
  {
    if EndsWith(name, suffix) {
      assert name == name[..|name| - |suffix|] + suffix;
    }
    if exists front :: name == front + suffix {
      var front :| name == front + suffix;
      assert name[|front|..] == suffix;
    }
  }

  /**
   `any([name.endswith(t) for t in fileTypes])`: the name ends with at least
   one of the suffixes; with no suffixes at all, nothing matches.
   */
  function Matches(name: string, fileTypes: seq<string>): (r: bool)
    ensures r <==> exists k :: 0 <= k < |fileTypes| && EndsWith(name, fileTypes[k])
  {
    if fileTypes == [] then false
    else if EndsWith(name, fileTypes[0]) then true
    else
      var r := Matches(name, fileTypes[1..]);
      assert forall k :: 1 <= k < |fileTypes| ==> fileTypes[k] == fileTypes[1..][k - 1];
      r
  }

  // ---------------------------------------------------------------------------
  // One file

  /** Detection has nothing left to do: the bytes are UTF-8, or nothing decodes them. */
  predicate Settled(f: ForeignCodecs, raw: seq<Utf8.byte>)
  {
    Detect(f, raw) == None || Detect(f, raw) == Some(UTF8)
  }

  /**
   What one visit leaves in a matching file: UTF-8 and undecodable bytes are
   left alone; otherwise the text decoded under the detected encoding,
   encoded as UTF-8. The new bytes decode as UTF-8 to the text the detected
   encoding read from the old ones, and a second visit changes nothing.
   */
  function Converted(f: ForeignCodecs, raw: seq<Utf8.byte>): (out: seq<Utf8.byte>)
    ensures Settled(f, raw) ==> out == raw
    ensures Detect(f, raw).Some? ==> Utf8.Decode(out) == Decode(f, Detect(f, raw).value, raw)
    ensures Detect(f, raw).Some? ==> Detect(f, out) == Some(UTF8)
    ensures Settled(f, out)
  {
    match Detect(f, raw)
    case None => raw
    case Some(e) =>
      if e != UTF8 then
        var text := Decode(f, e, raw).value;
        Utf8.DecodeEncode(text);
        Utf8.Encode(text)
      else raw
  }

  /** Converting is idempotent. */
  lemma ConvertedTwice(f: ForeignCodecs, raw: seq<Utf8.byte>)
    ensures Converted(f, Converted(f, raw)) == Converted(f, raw)
  {
  }

  /** For bytes that are already UTF-8, decoding and re-encoding would reproduce them, so skipping the write loses nothing. */
  lemma Utf8RewriteIsIdentity(f: ForeignCodecs, raw: seq<Utf8.byte>)
    requires Detect(f, raw) == Some(UTF8)
    ensures Utf8.Encode(Decode(f, UTF8, raw).value) == raw
  {
    Utf8.EncodeDecode(raw);
  }

  // ---------------------------------------------------------------------------
  // The whole run, as a function of the visit order

  /** The state of a run: still going, or stopped by a file that could not be opened. */
  datatype RunState =
    | Running(converted: seq<ConversionRecord>, files: Files)
    | Aborted(missing: Entry, files: Files)

  /** What the caller sees: the record list, or the error that escaped. */
  datatype Outcome = Completed(converted: seq<ConversionRecord>) | FileNotFound(path: Entry)

  function OutcomeOf(s: RunState): Outcome
  {
    match s
    case Running(converted, _) => Completed(converted)
    case Aborted(missing, _) => FileNotFound(missing)
  }

  /** One iteration of the inner loop, on the file `e`. */
  function Visit(f: ForeignCodecs, fileTypes: seq<string>, e: Entry, s: RunState): RunState
    requires s.Running?
  {
    if !Matches(e.name, fileTypes) then s
    else if e !in s.files then Aborted(e, s.files)
    else
      var raw := s.files[e];
      match Detect(f, raw)
      case None => s
      case Some(encoding) =>
        if encoding != UTF8 then
          Running(s.converted + [ConversionRecord(e.dir, e.name, Name(encoding), "utf-8")],
                  s.files[e := Utf8.Encode(Decode(f, encoding, raw).value)])
        else
          Running(s.converted + [ConversionRecord(e.dir, e.name, "utf-8", "utf-8")], s.files)
  }

  /** The run over the files in `paths`, in order, starting from the contents `files`. */
  function Run(f: ForeignCodecs, fileTypes: seq<string>, paths: seq<Entry>, files: Files): RunState
    decreases |paths|
  {
    if paths == [] then Running([], files)
    else
      var s := Run(f, fileTypes, paths[..|paths| - 1], files);
      if s.Aborted? then s else Visit(f, fileTypes, paths[|paths| - 1], s)
  }

  lemma RunAppend(f: ForeignCodecs, fileTypes: seq<string>, paths: seq<Entry>, e: Entry, files: Files)
    ensures var s := Run(f, fileTypes, paths, files);
      Run(f, fileTypes, paths + [e], files) == if s.Aborted? then s else Visit(f, fileTypes, e, s)
  {
    assert (paths + [e])[..|paths|] == paths;
  }

  /** Once a file cannot be opened, the rest of the walk is never visited. */
  lemma {:induction false} AbortedStays(f: ForeignCodecs, fileTypes: seq<string>, visited: seq<Entry>, paths: seq<Entry>, files: Files)
    requires visited <= paths
    requires Run(f, fileTypes, visited, files).Aborted?
    ensures Run(f, fileTypes, paths, files) == Run(f, fileTypes, visited, files)
    decreases |paths|
  {
    if |paths| > |visited| {
      assert visited <= paths[..|paths| - 1];
      AbortedStays(f, fileTypes, visited, paths[..|paths| - 1], files);
    } else {
      assert paths == visited;
    }
  }

  /** A run never creates or deletes a file. */
  lemma {:induction false} RunKeepsPaths(f: ForeignCodecs, fileTypes: seq<string>, paths: seq<Entry>, files: Files)
    ensures Run(f, fileTypes, paths, files).files.Keys == files.Keys
    decreases |paths|
  {
    if paths != [] {
      RunKeepsPaths(f, fileTypes, paths[..|paths| - 1], files);
    }
  }

  /** A visit converts the one file it is about, if that file matches and exists, and touches no other. */
  lemma VisitFiles(f: ForeignCodecs, fileTypes: seq<string>, x: Entry, s: RunState)
    requires s.Running?
    ensures Visit(f, fileTypes, x, s).files ==
      if Matches(x.name, fileTypes) && x in s.files then s.files[x := Converted(f, s.files[x])] else s.files
  {
    if Matches(x.name, fileTypes) && x in s.files && Settled(f, s.files[x]) {
      assert s.files[x := s.files[x]] == s.files;
    }
  }

  /**
   Only matching files of the walk change, and a file that changes ends up as
   the conversion of its original bytes; in a run that completes, every
   matching file of the walk has been converted.
   */
  lemma {:induction false} RunFiles(f: ForeignCodecs, fileTypes: seq<string>, paths: seq<Entry>, files: Files)
    ensures var r := Run(f, fileTypes, paths, files);
      forall p :: p in files ==>
        (p in r.files &&
         (r.files[p] == files[p] ||
          (p in paths && Matches(p.name, fileTypes) && r.files[p] == Converted(f, files[p]))))
    ensures var r := Run(f, fileTypes, paths, files);
      r.Running? ==> forall p :: p in files ==>
        (p in r.files &&
         r.files[p] == if p in paths && Matches(p.name, fileTypes) then Converted(f, files[p]) else files[p])
    decreases |paths|
  {
    if paths != [] {
      var prefix, x := paths[..|paths| - 1], paths[|paths| - 1];
      assert paths == prefix + [x];
      RunFiles(f, fileTypes, prefix, files);
      RunKeepsPaths(f, fileTypes, prefix, files);
      var s := Run(f, fileTypes, prefix, files);
      if s.Running? {
        VisitFiles(f, fileTypes, x, s);
        if x in files {
          ConvertedTwice(f, files[x]);
        }
      }
    }
  }

  /** Every matching file among `paths` exists. */
  predicate AllPresent(fileTypes: seq<string>, paths: seq<Entry>, files: Files)
  {
    forall k :: 0 <= k < |paths| && Matches(paths[k].name, fileTypes) ==> paths[k] in files
  }

  /** A run completes exactly when every matching file of the walk exists. */
  lemma {:induction false} RunCompletes(f: ForeignCodecs, fileTypes: seq<string>, paths: seq<Entry>, files: Files)
    ensures Run(f, fileTypes, paths, files).Running? <==> AllPresent(fileTypes, paths, files)
    decreases |paths|
  {
    if paths != [] {
      var prefix, x := paths[..|paths| - 1], paths[|paths| - 1];
      RunCompletes(f, fileTypes, prefix, files);
      RunKeepsPaths(f, fileTypes, prefix, files);
      assert AllPresent(fileTypes, paths, files) <==>
        AllPresent(fileTypes, prefix, files) && (Matches(x.name, fileTypes) ==> x in files)
      by {
        assert forall k :: 0 <= k < |prefix| ==> paths[k] == prefix[k];
      }
    }
  }

  /** A run that does not complete stops at the first matching file of the walk that does not exist. */
  lemma {:induction false} RunStopsAtMissing(f: ForeignCodecs, fileTypes: seq<string>, paths: seq<Entry>, files: Files)
    returns (k: nat)
    requires Run(f, fileTypes, paths, files).Aborted?
    ensures k < |paths| && paths[k] == Run(f, fileTypes, paths, files).missing
    ensures Matches(paths[k].name, fileTypes) && paths[k] !in files
    ensures AllPresent(fileTypes, paths[..k], files)
    decreases |paths|
  {
    var prefix, x := paths[..|paths| - 1], paths[|paths| - 1];
    var s := Run(f, fileTypes, prefix, files);
    if s.Aborted? {
      k := RunStopsAtMissing(f, fileTypes, prefix, files);
      assert paths[..k] == prefix[..k];
    } else {
      RunCompletes(f, fileTypes, prefix, files);
      RunKeepsPaths(f, fileTypes, prefix, files);
      k := |paths| - 1;
      assert paths[..k] == prefix;
    }
  }

  /**
   Every record of a completed run reports the target "utf-8" and an original
   encoding among those detection can produce, and names a matching file of
   the walk; there are no more records than files visited.
   */
  lemma {:induction false} RecordsShape(f: ForeignCodecs, fileTypes: seq<string>, paths: seq<Entry>, files: Files)
    ensures var r := Run(f, fileTypes, paths, files);
      r.Running? ==>
        |r.converted| <= |paths| &&
        forall rec :: rec in r.converted ==>
          rec.targetEncoding == "utf-8" &&
          rec.originalEncoding in ["utf-8", "gbk", "big5", "utf-16"] &&
          Entry(rec.directory, rec.fileName) in paths && Matches(rec.fileName, fileTypes)
    decreases |paths|
  {
    if paths != [] {
      var prefix, x := paths[..|paths| - 1], paths[|paths| - 1];
      assert paths == prefix + [x];
      RecordsShape(f, fileTypes, prefix, files);
    }
  }

  /** The record of a file whose original encoding is `e`. */
  function RecordOf(p: Entry, e: Encoding): ConversionRecord
  {
    ConversionRecord(p.dir, p.name, Name(e), "utf-8")
  }

  /** The walk position of a file that gets a record: it matches, it exists, and some encoding decodes it. */
  predicate Reported(f: ForeignCodecs, fileTypes: seq<string>, p: Entry, files: Files)
  {
    Matches(p.name, fileTypes) && p in files && Detect(f, files[p]).Some?
  }

  /**
   `at[k]` is the walk position of the file `converted[k]` is about: the
   positions increase, each names a reported file and the encoding detected
   on its bytes, and every reported position appears.
   */
  ghost predicate Placed(f: ForeignCodecs, fileTypes: seq<string>, paths: seq<Entry>, files: Files,
                         converted: seq<ConversionRecord>, at: seq<nat>)
  {
    && |at| == |converted|
    && (forall k :: 0 <= k < |at| ==> at[k] < |paths|)
    && (forall k :: 0 < k < |at| ==> at[k - 1] < at[k])
    && (forall k :: 0 <= k < |at| ==>
          Reported(f, fileTypes, paths[at[k]], files) &&
          converted[k] == RecordOf(paths[at[k]], Detect(f, files[paths[at[k]]]).value))
    && (forall j :: 0 <= j < |paths| ==> (j in at <==> Reported(f, fileTypes, paths[j], files)))
  }

  /** A visit that reports `x` appends its record and its position. */
  lemma PlacedAppend(f: ForeignCodecs, fileTypes: seq<string>, paths: seq<Entry>, x: Entry, files: Files,
                     converted: seq<ConversionRecord>, at: seq<nat>)
    requires Placed(f, fileTypes, paths, files, converted, at)
    requires Reported(f, fileTypes, x, files)
    ensures Placed(f, fileTypes, paths + [x], files, converted + [RecordOf(x, Detect(f, files[x]).value)], at + [|paths|])
  {
    var extended, converted', at' := paths + [x], converted + [RecordOf(x, Detect(f, files[x]).value)], at + [|paths|];
    forall k | 0 <= k < |at'|
      ensures at'[k] < |extended|
      ensures Reported(f, fileTypes, extended[at'[k]], files)
      ensures converted'[k] == RecordOf(extended[at'[k]], Detect(f, files[extended[at'[k]]]).value)
    {
      if k < |at| {
        assert at'[k] == at[k] && extended[at[k]] == paths[at[k]];
      }
    }
    forall j | 0 <= j < |extended|
      ensures j in at' <==> Reported(f, fileTypes, extended[j], files)
    {
      if j < |paths| {
        assert extended[j] == paths[j];
        assert j in at' <==> j in at;
      }
    }
  }

  /** A visit that does not report `x` leaves records and positions as they were. */
  lemma PlacedSkip(f: ForeignCodecs, fileTypes: seq<string>, paths: seq<Entry>, x: Entry, files: Files,
                   converted: seq<ConversionRecord>, at: seq<nat>)
    requires Placed(f, fileTypes, paths, files, converted, at)
    requires !Reported(f, fileTypes, x, files)
    ensures Placed(f, fileTypes, paths + [x], files, converted, at)
  {
    var extended := paths + [x];
    forall k | 0 <= k < |at|
      ensures extended[at[k]] == paths[at[k]]
    {
    }
    forall j | 0 <= j < |extended|
      ensures j in at <==> Reported(f, fileTypes, extended[j], files)
    {
      if j < |paths| {
        assert extended[j] == paths[j];
      }
    }
  }

  /** The walk lists each file once. */
  predicate Distinct(paths: seq<Entry>)
  {
    forall i, j :: 0 <= i < j < |paths| ==> paths[i] != paths[j]
  }

  lemma DistinctPrefix(paths: seq<Entry>)
    requires Distinct(paths) && paths != []
    ensures Distinct(paths[..|paths| - 1]) && paths[|paths| - 1] !in paths[..|paths| - 1]
  {
    var prefix := paths[..|paths| - 1];
    forall i | 0 <= i < |prefix| ensures prefix[i] == paths[i] {
    }
  }

  /**
   When the walk lists each file once, the records of a completed run are, in
   visit order, one per matching file that some encoding decodes, each naming
   the encoding detected on that file's original bytes.
   */
  lemma {:induction false} RecordsFollowWalk(f: ForeignCodecs, fileTypes: seq<string>, paths: seq<Entry>, files: Files)
    returns (at: seq<nat>)
    requires Distinct(paths)
    requires Run(f, fileTypes, paths, files).Running?
    ensures Placed(f, fileTypes, paths, files, Run(f, fileTypes, paths, files).converted, at)
    decreases |paths|
  {
    if paths == [] {
      return [];
    }
    var n := |paths|;
    var prefix, x := paths[..n - 1], paths[n - 1];
    var s := Run(f, fileTypes, prefix, files);
    var r := Run(f, fileTypes, paths, files);
    assert s.Running? && r == Visit(f, fileTypes, x, s);
    DistinctPrefix(paths);
    var before := RecordsFollowWalk(f, fileTypes, prefix, files);
    assert x in files ==> x in s.files && s.files[x] == files[x] by {
      RunFiles(f, fileTypes, prefix, files);
    }
    assert x in s.files ==> x in files by {
      RunKeepsPaths(f, fileTypes, prefix, files);
    }
    at := PlacedVisit(f, fileTypes, prefix, x, s, files, before);
    assert prefix + [x] == paths;
  }

  /** One more visit keeps the records placed. */
  lemma PlacedVisit(f: ForeignCodecs, fileTypes: seq<string>, prefix: seq<Entry>, x: Entry, s: RunState, files: Files,
                    before: seq<nat>) returns (at: seq<nat>)
    requires s.Running? && Visit(f, fileTypes, x, s).Running?
    requires Placed(f, fileTypes, prefix, files, s.converted, before)
    requires x in files ==> x in s.files && s.files[x] == files[x]
    requires x in s.files ==> x in files
    ensures Placed(f, fileTypes, prefix + [x], files, Visit(f, fileTypes, x, s).converted, at)
  {
    VisitRecords(f, fileTypes, x, s, files);
    if Reported(f, fileTypes, x, files) {
      PlacedAppend(f, fileTypes, prefix, x, files, s.converted, before);
      at := before + [|prefix|];
    } else {
      PlacedSkip(f, fileTypes, prefix, x, files, s.converted, before);
      at := before;
    }
  }

  /** The records after visiting `x`, when the file is still as it was originally. */
  lemma VisitRecords(f: ForeignCodecs, fileTypes: seq<string>, x: Entry, s: RunState, files: Files)
    requires s.Running? && Visit(f, fileTypes, x, s).Running?
    requires x in files ==> x in s.files && s.files[x] == files[x]
    requires x in s.files ==> x in files
    ensures Visit(f, fileTypes, x, s).converted ==
      if Reported(f, fileTypes, x, files) then s.converted + [RecordOf(x, Detect(f, files[x]).value)] else s.converted
  {
  }

  /** A walk over settled files changes nothing and reports only "utf-8" to "utf-8". */
  lemma {:induction false} RunOverSettled(f: ForeignCodecs, fileTypes: seq<string>, paths: seq<Entry>, files: Files)
    requires forall p :: p in paths && Matches(p.name, fileTypes) ==> p in files && Settled(f, files[p])
    ensures var r := Run(f, fileTypes, paths, files);
      r.Running? && r.files == files &&
      forall rec :: rec in r.converted ==> rec.originalEncoding == "utf-8" && rec.targetEncoding == "utf-8"
    decreases |paths|
  {
    if paths != [] {
      var prefix, x := paths[..|paths| - 1], paths[|paths| - 1];
      assert paths == prefix + [x];
      RunOverSettled(f, fileTypes, prefix, files);
    }
  }

  /**
   Converting twice is converting once: after a completed run, a second run
   over the same files (in any order) changes no byte and reports every file
   it classifies as "utf-8" to "utf-8".
   */
  lemma RunTwice(f: ForeignCodecs, fileTypes: seq<string>, paths: seq<Entry>, again: seq<Entry>, files: Files)
    requires Run(f, fileTypes, paths, files).Running?
    requires forall p :: p in again ==> p in paths
    ensures var once := Run(f, fileTypes, paths, files).files;
      var twice := Run(f, fileTypes, again, once);
      twice.Running? && twice.files == once &&
      forall rec :: rec in twice.converted ==> rec.originalEncoding == "utf-8" && rec.targetEncoding == "utf-8"
  {
    RunFiles(f, fileTypes, paths, files);
    RunCompletes(f, fileTypes, paths, files);
    var once := Run(f, fileTypes, paths, files).files;
    forall p | p in again && Matches(p.name, fileTypes)
      ensures p in once && Settled(f, once[p])
    {
      var k :| 0 <= k < |paths| && paths[k] == p;
      assert p in files;
    }
    RunOverSettled(f, fileTypes, again, once);
  }

  /** U+4F60 U+597D in GBK, and the same two characters in UTF-8. */
  const GbkNiHao: seq<Utf8.byte> := [0xC4, 0xE3, 0xBA, 0xC3]
  const Utf8NiHao: seq<Utf8.byte> := [0xE4, 0xBD, 0xA0, 0xE5, 0xA5, 0xBD]
  /** "hello" in ASCII. */
  const Hello: seq<Utf8.byte> := [0x68, 0x65, 0x6C, 0x6C, 0x6F]

  const ExampleFiles: Files :=
    map[Entry("a", "x.txt") := GbkNiHao, Entry("a/b", "y.txt") := Hello, Entry("a/b", "z.csv") := GbkNiHao]
  const ExampleWalk: seq<Listing> := [Listing("a", ["x.txt"]), Listing("a/b", ["y.txt", "z.csv"])]

  /**
   A small tree: a GBK file and a UTF-8 file with the `.txt` suffix, and a GBK
   file with another suffix. Only the first is rewritten, to the UTF-8 bytes
   of the same text; the `.csv` file is neither reported nor touched.
   */
  lemma ExampleTree(f: ForeignCodecs)
    requires f.gbk(GbkNiHao) == Some("\U{4F60}\U{597D}")
    ensures Run(f, [".txt"], Entries(ExampleWalk), ExampleFiles) ==
      Running([ConversionRecord("a", "x.txt", "gbk", "utf-8"), ConversionRecord("a/b", "y.txt", "utf-8", "utf-8")],
              ExampleFiles[Entry("a", "x.txt") := Utf8NiHao])
  {
    var x, y, z := Entry("a", "x.txt"), Entry("a/b", "y.txt"), Entry("a/b", "z.csv");
    ExampleEntries();
    ExampleRunXY(f);
    RunAppend(f, [".txt"], [x, y], z, ExampleFiles);
    assert [x, y] + [z] == [x, y, z];
    ExampleVisitZ(f, [ConversionRecord("a", "x.txt", "gbk", "utf-8"), ConversionRecord("a/b", "y.txt", "utf-8", "utf-8")]);
  }

  lemma ExampleRunX(f: ForeignCodecs)
    requires f.gbk(GbkNiHao) == Some("\U{4F60}\U{597D}")
    ensures Run(f, [".txt"], [Entry("a", "x.txt")], ExampleFiles) ==
      Running([ConversionRecord("a", "x.txt", "gbk", "utf-8")], ExampleFiles[Entry("a", "x.txt") := Utf8NiHao])
  {
    RunAppend(f, [".txt"], [], Entry("a", "x.txt"), ExampleFiles);
    assert [] + [Entry("a", "x.txt")] == [Entry("a", "x.txt")];
    ExampleVisitX(f);
  }

  lemma ExampleRunXY(f: ForeignCodecs)
    requires f.gbk(GbkNiHao) == Some("\U{4F60}\U{597D}")
    ensures Run(f, [".txt"], [Entry("a", "x.txt"), Entry("a/b", "y.txt")], ExampleFiles) ==
      Running([ConversionRecord("a", "x.txt", "gbk", "utf-8"), ConversionRecord("a/b", "y.txt", "utf-8", "utf-8")],
              ExampleFiles[Entry("a", "x.txt") := Utf8NiHao])
  {
    var x, y := Entry("a", "x.txt"), Entry("a/b", "y.txt");
    ExampleRunX(f);
    RunAppend(f, [".txt"], [x], y, ExampleFiles);
    assert [x] + [y] == [x, y];
    ExampleVisitY(f, [ConversionRecord("a", "x.txt", "gbk", "utf-8")]);
  }

  /** The example walk visits x.txt, then y.txt, then z.csv. */
  lemma ExampleEntries()
    ensures Entries(ExampleWalk) == [Entry("a", "x.txt"), Entry("a/b", "y.txt"), Entry("a/b", "z.csv")]
  {
    assert ExampleWalk[..1] == [Listing("a", ["x.txt"])] && ExampleWalk[..1][..0] == [];
  }

  /** x.txt is GBK: it is rewritten as UTF-8 and reported as `gbk`. */
  lemma ExampleVisitX(f: ForeignCodecs)
    requires f.gbk(GbkNiHao) == Some("\U{4F60}\U{597D}")
    ensures Visit(f, [".txt"], Entry("a", "x.txt"), Running([], ExampleFiles)) ==
      Running([ConversionRecord("a", "x.txt", "gbk", "utf-8")], ExampleFiles[Entry("a", "x.txt") := Utf8NiHao])
  {
    assert Matches("x.txt", [".txt"]) by { assert "x.txt"[1..] == ".txt"; }
    assert ExampleFiles[Entry("a", "x.txt")] == GbkNiHao;
    ExampleGbkDetected(f);
    ExampleEncoded();
  }

  /** The GBK bytes are not UTF-8: 0xC4 needs a continuation byte and 0xE3 is not one. */
  lemma ExampleGbkDetected(f: ForeignCodecs)
    requires f.gbk(GbkNiHao) == Some("\U{4F60}\U{597D}")
    ensures Detect(f, GbkNiHao) == Some(GBK)
  {
    assert Utf8.LeadLength(GbkNiHao) == 0;
  }

  /** U+4F60 U+597D in UTF-8. */
  lemma ExampleEncoded()
    ensures Utf8.Encode("\U{4F60}\U{597D}") == Utf8NiHao
  {
    assert Utf8.EncodeChar('\U{4F60}') == [0xE4, 0xBD, 0xA0];
    assert Utf8.EncodeChar('\U{597D}') == [0xE5, 0xA5, 0xBD];
  }

  /** y.txt is already UTF-8: it is reported as `utf-8` and not written. */
  lemma ExampleVisitY(f: ForeignCodecs, converted: seq<ConversionRecord>)
    ensures var files := ExampleFiles[Entry("a", "x.txt") := Utf8NiHao];
      Visit(f, [".txt"], Entry("a/b", "y.txt"), Running(converted, files)) ==
      Running(converted + [ConversionRecord("a/b", "y.txt", "utf-8", "utf-8")], files)
  {
    assert Matches("y.txt", [".txt"]) by { assert "y.txt"[1..] == ".txt"; }
    assert ExampleFiles[Entry("a", "x.txt") := Utf8NiHao][Entry("a/b", "y.txt")] == Hello;
    assert Utf8.Valid(Hello) by { assert Hello[1..][1..][1..][1..][1..] == []; }
  }

  /** z.csv does not pass the `.txt` filter and is not even opened. */
  lemma ExampleVisitZ(f: ForeignCodecs, converted: seq<ConversionRecord>)
    ensures var s := Running(converted, ExampleFiles[Entry("a", "x.txt") := Utf8NiHao]);
      Visit(f, [".txt"], Entry("a/b", "z.csv"), s) == s
  {
    assert !Matches("z.csv", [".txt"]) by { assert "z.csv"[1..][1] != ".txt"[1]; }
  }

  // ---------------------------------------------------------------------------
  // The converter itself

  /** The tree's files, which the converter reads and overwrites in place. */
  class FileSystem {
    var files: Files

    constructor (initial: Files)
      ensures files == initial
    {
      files := initial;
    }

    /** `open(path, 'rb').read()`: the whole content, or `None` when there is no such file. */
    method ReadBytes(path: Entry) returns (raw: Option<seq<Utf8.byte>>)
      ensures raw.Some? <==> path in files
      ensures raw.Some? ==> raw.value == files[path]
    {
      raw := if path in files then Some(files[path]) else None;
    }

    /** `codecs.open(path, 'w', encoding='utf-8').write(text)`: the file holds exactly the UTF-8 form of `text`. */
    method WriteText(path: Entry, text: string)
      modifies this
      ensures files == old(files)[path := Utf8.Encode(text)]
    {
      files := files[path := Utf8.Encode(text)];
    }
  }

  /** The visited entries are a prefix of the whole walk. */
  lemma {:induction false} VisitedIsPrefix(walk: seq<Listing>, i: nat, j: nat)
    requires i < |walk| && j <= |walk[i].files|
    ensures Entries(walk[..i]) + InDir(walk[i].root, walk[i].files[..j]) <= Entries(walk)
    decreases |walk|
  {
    var n := |walk|;
    if i == n - 1 {
      assert walk[..n][..i] == walk[..i];
      assert InDir(walk[i].root, walk[i].files[..j]) <= InDir(walk[i].root, walk[i].files);
    } else {
      VisitedIsPrefix(walk[..n - 1], i, j);
      assert walk[..n - 1][..i] == walk[..i];
    }
  }

  /** Visiting the next name of a listing extends the visited entries by that one file. */
  lemma NextInListing(visited: seq<Entry>, root: string, names: seq<string>, j: nat)
    requires j < |names|
    ensures visited + InDir(root, names[..j + 1]) == visited + InDir(root, names[..j]) + [Entry(root, names[j])]
  {
    assert InDir(root, names[..j + 1]) == InDir(root, names[..j]) + [Entry(root, names[j])];
  }

  /** Finishing a listing extends the walk prefix by that listing. */
  lemma NextListing(walk: seq<Listing>, i: nat)
    requires i < |walk|
    ensures Entries(walk[..i + 1]) == Entries(walk[..i]) + InDir(walk[i].root, walk[i].files[..|walk[i].files|])
  {
    assert walk[..i + 1][..i] == walk[..i];
    assert walk[i].files[..|walk[i].files|] == walk[i].files;
  }

  /**
   Convert every matching file of the walk to UTF-8 and return the records.
   Its effect is exactly `Run` over the walk's entries: the caller gets the
   record list, or the missing file whose error escaped, and the files hold
   what the run left in them.
   */
  method ConvertToUtf8(fs: FileSystem, f: ForeignCodecs, walk: seq<Listing>, fileTypes: seq<string> := [".txt"])
    returns (outcome: Outcome)
    modifies fs
    ensures var s := Run(f, fileTypes, Entries(walk), old(fs.files));
      outcome == OutcomeOf(s) && fs.files == s.files
  {
    ghost var initial := fs.files;
    ghost var visited: seq<Entry> := [];
    var convertedFiles: seq<ConversionRecord> := [];
    for i := 0 to |walk|
      invariant visited == Entries(walk[..i])
      invariant Run(f, fileTypes, visited, initial) == Running(convertedFiles, fs.files)
    {
      var root, names := walk[i].root, walk[i].files;
      assert visited + InDir(root, names[..0]) == visited;
      for j := 0 to |names|
        invariant visited == Entries(walk[..i]) + InDir(root, names[..j])
        invariant Run(f, fileTypes, visited, initial) == Running(convertedFiles, fs.files)
      {
        var name := names[j];
        var path := Entry(root, name);
        NextInListing(Entries(walk[..i]), root, names, j);
        RunAppend(f, fileTypes, visited, path, initial);
        visited := visited + [path];
        if !Matches(name, fileTypes) {
          continue;
        }
        var raw := fs.ReadBytes(path);
        if raw.None? {
          VisitedIsPrefix(walk, i, j + 1);
          AbortedStays(f, fileTypes, visited, Entries(walk), initial);
          return FileNotFound(path);
        }
        var encoding := DetectEncoding(f, raw.value);
        if encoding.None? {
          continue;
        }
        if encoding.value != UTF8 {
          fs.WriteText(path, Decode(f, encoding.value, raw.value).value);
          convertedFiles := convertedFiles + [ConversionRecord(root, name, Name(encoding.value), "utf-8")];
        } else {
          convertedFiles := convertedFiles + [ConversionRecord(root, name, "utf-8", "utf-8")];
        }
      }
      NextListing(walk, i);
    }
    assert walk[..|walk|] == walk;
    return Completed(convertedFiles);
  }
}
