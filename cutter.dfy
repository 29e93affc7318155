/**
 * The cut pipeline: `CutterWorker` walks the segment list in order, builds
 * one ffmpeg command per segment and reports through a message queue.
 *
 * The external process is an oracle: `outcomes[i]` is what running ffmpeg
 * for segment i yields. A `stop()` from the user interface is modelled by
 * the index of the first iteration whose check sees the flag raised.
 */
module Cutter {
  import opened Wrappers
  import opened Numerals
  import opened Text
  import opened TimeCodec
  import opened Segments
  import opened Seqs

  /** The settings a worker is created with. */
  datatype Job = Job(
    videoPath: string,
    baseName: string,      // the video's file name without directory and extension
    outDir: string,
    mode: string,          // "FAST" copies the streams; anything else re-encodes
    codec: string,
    crf: int,
    preset: string,
    audioMode: string,     // "copy" keeps the audio stream; anything else encodes AAC
    audioBitrate: string)

  /** One ffmpeg run: its exit code with the merged output, or the exception raised by the launch. */
  datatype Outcome = Exited(code: int, output: string) | NotLaunched(reason: string)

  /** What the table shows for a segment. */
  datatype Status =
    | Running
    | Finished
    | FailedWithCode(code: int)
    | FailedToLaunch(reason: string)
    | NotPositive
  {
    predicate IsFailure() {
      FailedWithCode? || FailedToLaunch? || NotPositive?
    }
  }

  /** The log lines of a run; `LogText` gives the text the queue carries. */
  datatype LogLine =
    | OutputLine(idx: nat, total: nat, name: string)
    | CommandLine(cmd: seq<string>)
    | FailureOutput(output: string)
    | StopLine

  /** The tagged messages the worker puts on the queue. */
  datatype Message =
    | Overall(total: nat)
    | Log(line: LogLine)
    | SegmentStatus(index: nat, status: Status)
    | Progress(fraction: real)
    | Done

  /** The status column text carried by a `segment_status` message. */
  function StatusText(s: Status): (t: string)
    ensures StartsWith(t, "HATA") <==> s.IsFailure()
  {
    match s
    case Running => NotHata("ÇALIŞIYOR…"); "ÇALIŞIYOR…"
    case Finished => NotHata("BİTTİ"); "BİTTİ"
    case FailedWithCode(code) => Hata(" (kod " + IntToString(code) + ")"); "HATA" + (" (kod " + IntToString(code) + ")")
    case FailedToLaunch(reason) => Hata(": " + reason); "HATA" + (": " + reason)
    case NotPositive => Hata(": süre <= 0"); "HATA" + ": süre <= 0"
  }

  lemma Hata(rest: string)
    ensures StartsWith("HATA" + rest, "HATA")
  {
    assert ("HATA" + rest)[..4] == "HATA";
  }

  lemma NotHata(t: string)
    requires t != [] && t[0] != 'H'
    ensures !StartsWith(t, "HATA")
  {
    if |t| >= 4 {
      assert t[..4][0] != "HATA"[0];
    }
  }

  const StopText: string := "İşlem kullanıcı tarafından durduruldu."
  const NoOutputText: string := "Hata çıktısı yok."

  function OverallText(total: nat): string {
    "Toplam " + IntToString(total) + " parça kesilecek…"
  }

  function OutputLog(idx: nat, total: nat, name: string): string {
    "[" + IntToString(idx) + "/" + IntToString(total) + "] Çıktı: " + name
  }

  function CommandLog(cmd: seq<string>): string {
    "Komut: " + Join(cmd, " ")
  }

  function LogText(line: LogLine): string {
    match line
    case OutputLine(idx, total, name) => OutputLog(idx, total, name)
    case CommandLine(cmd) => CommandLog(cmd)
    case FailureOutput(output) => output
    case StopLine => StopText
  }

  predicate IsSuffix(t: string, s: string) {
    |t| <= |s| && s[|s| - |t|..] == t
  }

  /** The log line after a failed run: the last 1000 characters of the output, or a fixed note when there is none. */
  function ErrorTail(output: string): (t: string)
    ensures output == [] ==> t == NoOutputText
    ensures output != [] ==> IsSuffix(t, output) && |t| == if |output| < 1000 then |output| else 1000
  {
    if output == [] then NoOutputText
    else if |output| <= 1000 then output
    else output[|output| - 1000..]
  }

  // ---------------------------------------------------------------------------
  // Output names and commands
  // ---------------------------------------------------------------------------

  /** A typed time with ':' made safe for a file name. */
  function SafeText(text: string): string {
    ReplaceChar(text, ':', '-')
  }

  /** `<base>_parcaNN_<start>_to_<end>.mp4` for the segment at 1-based position idx. */
  function OutputName(base: string, idx: nat, seg: Segment): string {
    base + "_parca" + PadNat(idx, 2) + "_" + SafeText(seg.startText) + "_to_" + SafeText(seg.endText) + ".mp4"
  }

  /** POSIX `os.path.join(dir, name)`. */
  function JoinPath(dir: string, name: string): (path: string)
    ensures IsSuffix(name, path)
  {
    if name != [] && name[0] == '/' then name
    else if dir == [] || dir[|dir| - 1] == '/' then dir + name
    else dir + "/" + name
  }

  /** The flag/value pairs laid out one after the other. */
  function Flatten(pairs: seq<(string, string)>): (args: seq<string>)
    ensures |args| == 2 * |pairs|
  {
    if pairs == [] then [] else [pairs[0].0, pairs[0].1] + Flatten(pairs[1..])
  }

  /** An argument list read as flag/value pairs. */
  function OptionPairs(args: seq<string>): (pairs: seq<(string, string)>)
    requires |args| % 2 == 0
    ensures 2 * |pairs| == |args|
  {
    if args == [] then [] else [(args[0], args[1])] + OptionPairs(args[2..])
  }

  lemma {:induction false} OptionPairsFlatten(pairs: seq<(string, string)>)
    ensures OptionPairs(Flatten(pairs)) == pairs
  {
    if pairs != [] {
      var args := Flatten(pairs);
      assert args[2..] == Flatten(pairs[1..]);
      OptionPairsFlatten(pairs[1..]);
    }
  }

  function AudioPairs(job: Job): seq<(string, string)> {
    if job.audioMode == "copy" then [("-c:a", "copy")] else [("-c:a", "aac"), ("-b:a", job.audioBitrate)]
  }

  /** FAST: seek on the input, then copy the streams and shift negative timestamps. */
  function FastPairs(path: string, startHms: string, durHms: string): seq<(string, string)> {
    [("-ss", startHms), ("-i", path), ("-t", durHms), ("-c", "copy"), ("-avoid_negative_ts", "1")]
  }

  lemma FastLookups(path: string, startHms: string, durHms: string)
    ensures Lookup(FastPairs(path, startHms, durHms), "-ss") == Some(startHms)
    ensures Lookup(FastPairs(path, startHms, durHms), "-i") == Some(path)
    ensures Lookup(FastPairs(path, startHms, durHms), "-t") == Some(durHms)
    ensures Lookup(FastPairs(path, startHms, durHms), "-c") == Some("copy")
    ensures Lookup(FastPairs(path, startHms, durHms), "-avoid_negative_ts") == Some("1")
    ensures Lookup(FastPairs(path, startHms, durHms), "-c:v") == None
    ensures FlagIndex(FastPairs(path, startHms, durHms), "-ss") < FlagIndex(FastPairs(path, startHms, durHms), "-i")
  {
    var p := FastPairs(path, startHms, durHms);
    assert FlagIndexFrom(p, "-i", 1) == 1;
    assert FlagIndexFrom(p, "-i", 0) == 1;
    assert FlagIndexFrom(p, "-t", 2) == 2;
    assert FlagIndexFrom(p, "-t", 1) == 2;
    assert FlagIndexFrom(p, "-t", 0) == 2;
    assert FlagIndexFrom(p, "-c", 3) == 3;
    assert FlagIndexFrom(p, "-c", 2) == 3;
    assert FlagIndexFrom(p, "-c", 1) == 3;
    assert FlagIndexFrom(p, "-c", 0) == 3;
    assert FlagIndexFrom(p, "-avoid_negative_ts", 4) == 4;
    assert FlagIndexFrom(p, "-avoid_negative_ts", 3) == 4;
    assert FlagIndexFrom(p, "-avoid_negative_ts", 2) == 4;
    assert FlagIndexFrom(p, "-avoid_negative_ts", 1) == 4;
    assert FlagIndexFrom(p, "-avoid_negative_ts", 0) == 4;
    assert FlagIndexFrom(p, "-c:v", 5) == 5;
    assert FlagIndexFrom(p, "-c:v", 4) == 5;
    assert FlagIndexFrom(p, "-c:v", 3) == 5;
    assert FlagIndexFrom(p, "-c:v", 2) == 5;
    assert FlagIndexFrom(p, "-c:v", 1) == 5;
    assert FlagIndexFrom(p, "-c:v", 0) == 5;
  }


  /** ACCURATE: open the input, seek, and re-encode the video with the chosen codec, preset and quality. */
  function EncodePairs(path: string, startHms: string, durHms: string, codec: string, preset: string, crf: string)
    : seq<(string, string)>
  {
    [("-i", path), ("-ss", startHms), ("-t", durHms),
     ("-map", "0"), ("-c:v", codec), ("-preset", preset), ("-crf", crf)]
  }

  function AccuratePairs(job: Job, startHms: string, durHms: string): seq<(string, string)> {
    EncodePairs(job.videoPath, startHms, durHms, job.codec, job.preset, IntToString(job.crf)) + AudioPairs(job)
  }

  lemma EncodeLookups(path: string, startHms: string, durHms: string, codec: string, preset: string, crf: string)
    ensures Lookup(EncodePairs(path, startHms, durHms, codec, preset, crf), "-i") == Some(path)
    ensures Lookup(EncodePairs(path, startHms, durHms, codec, preset, crf), "-ss") == Some(startHms)
    ensures Lookup(EncodePairs(path, startHms, durHms, codec, preset, crf), "-t") == Some(durHms)
    ensures Lookup(EncodePairs(path, startHms, durHms, codec, preset, crf), "-map") == Some("0")
    ensures Lookup(EncodePairs(path, startHms, durHms, codec, preset, crf), "-c:v") == Some(codec)
    ensures Lookup(EncodePairs(path, startHms, durHms, codec, preset, crf), "-preset") == Some(preset)
    ensures Lookup(EncodePairs(path, startHms, durHms, codec, preset, crf), "-crf") == Some(crf)
    ensures Lookup(EncodePairs(path, startHms, durHms, codec, preset, crf), "-c:a") == None
    ensures Lookup(EncodePairs(path, startHms, durHms, codec, preset, crf), "-b:a") == None
    ensures Lookup(EncodePairs(path, startHms, durHms, codec, preset, crf), "-c") == None
  {
    var p := EncodePairs(path, startHms, durHms, codec, preset, crf);
    assert FlagIndexFrom(p, "-ss", 1) == 1;
    assert FlagIndexFrom(p, "-ss", 0) == 1;
    assert FlagIndexFrom(p, "-t", 2) == 2;
    assert FlagIndexFrom(p, "-t", 1) == 2;
    assert FlagIndexFrom(p, "-t", 0) == 2;
    assert FlagIndexFrom(p, "-map", 3) == 3;
    assert FlagIndexFrom(p, "-map", 2) == 3;
    assert FlagIndexFrom(p, "-map", 1) == 3;
    assert FlagIndexFrom(p, "-map", 0) == 3;
    assert FlagIndexFrom(p, "-c:v", 4) == 4;
    assert FlagIndexFrom(p, "-c:v", 3) == 4;
    assert FlagIndexFrom(p, "-c:v", 2) == 4;
    assert FlagIndexFrom(p, "-c:v", 1) == 4;
    assert FlagIndexFrom(p, "-c:v", 0) == 4;
    assert FlagIndexFrom(p, "-preset", 5) == 5;
    assert FlagIndexFrom(p, "-preset", 4) == 5;
    assert FlagIndexFrom(p, "-preset", 3) == 5;
    assert FlagIndexFrom(p, "-preset", 2) == 5;
    assert FlagIndexFrom(p, "-preset", 1) == 5;
    assert FlagIndexFrom(p, "-preset", 0) == 5;
    assert FlagIndexFrom(p, "-crf", 6) == 6;
    assert FlagIndexFrom(p, "-crf", 5) == 6;
    assert FlagIndexFrom(p, "-crf", 4) == 6;
    assert FlagIndexFrom(p, "-crf", 3) == 6;
    assert FlagIndexFrom(p, "-crf", 2) == 6;
    assert FlagIndexFrom(p, "-crf", 1) == 6;
    assert FlagIndexFrom(p, "-crf", 0) == 6;
    assert FlagIndexFrom(p, "-c:a", 7) == 7;
    assert FlagIndexFrom(p, "-c:a", 6) == 7;
    assert FlagIndexFrom(p, "-c:a", 5) == 7;
    assert FlagIndexFrom(p, "-c:a", 4) == 7;
    assert FlagIndexFrom(p, "-c:a", 3) == 7;
    assert FlagIndexFrom(p, "-c:a", 2) == 7;
    assert FlagIndexFrom(p, "-c:a", 1) == 7;
    assert FlagIndexFrom(p, "-c:a", 0) == 7;
    assert FlagIndexFrom(p, "-b:a", 7) == 7;
    assert FlagIndexFrom(p, "-b:a", 6) == 7;
    assert FlagIndexFrom(p, "-b:a", 5) == 7;
    assert FlagIndexFrom(p, "-b:a", 4) == 7;
    assert FlagIndexFrom(p, "-b:a", 3) == 7;
    assert FlagIndexFrom(p, "-b:a", 2) == 7;
    assert FlagIndexFrom(p, "-b:a", 1) == 7;
    assert FlagIndexFrom(p, "-b:a", 0) == 7;
    assert FlagIndexFrom(p, "-c", 7) == 7;
    assert FlagIndexFrom(p, "-c", 6) == 7;
    assert FlagIndexFrom(p, "-c", 5) == 7;
    assert FlagIndexFrom(p, "-c", 4) == 7;
    assert FlagIndexFrom(p, "-c", 3) == 7;
    assert FlagIndexFrom(p, "-c", 2) == 7;
    assert FlagIndexFrom(p, "-c", 1) == 7;
    assert FlagIndexFrom(p, "-c", 0) == 7;
  }

  lemma AudioLookups(job: Job)
    ensures Lookup(AudioPairs(job), "-c:a") == Some(if job.audioMode == "copy" then "copy" else "aac")
    ensures Lookup(AudioPairs(job), "-b:a") == if job.audioMode == "copy" then None else Some(job.audioBitrate)
    ensures Lookup(AudioPairs(job), "-c") == None
  {
    var p := AudioPairs(job);
    if job.audioMode != "copy" {
      assert FlagIndexFrom(p, "-b:a", 1) == 1;
      assert FlagIndexFrom(p, "-c", 1) == 2;
    }
  }

  /** Searching a concatenation: the first part, and the second only when the first lacks the flag. */
  lemma FlagIndexConcat(a: seq<(string, string)>, b: seq<(string, string)>, flag: string)
    ensures FlagIndex(a + b, flag) == if FlagIndex(a, flag) < |a| then FlagIndex(a, flag) else |a| + FlagIndex(b, flag)
  {
    FlagIndexFromConcat(a, b, flag, 0);
  }

  lemma {:induction false} FlagIndexFromConcat(a: seq<(string, string)>, b: seq<(string, string)>, flag: string, k: nat)
    requires k <= |a|
    ensures FlagIndexFrom(a + b, flag, k) ==
      if FlagIndexFrom(a, flag, k) < |a| then FlagIndexFrom(a, flag, k) else |a| + FlagIndexFrom(b, flag, 0)
    decreases |a| - k
  {
    if k == |a| {
      FlagIndexFromShift(a, b, flag, 0);
    } else {
      assert (a + b)[k] == a[k];
      if a[k].0 != flag {
        FlagIndexFromConcat(a, b, flag, k + 1);
      }
    }
  }

  lemma {:induction false} FlagIndexFromShift(a: seq<(string, string)>, b: seq<(string, string)>, flag: string, j: nat)
    requires j <= |b|
    ensures FlagIndexFrom(a + b, flag, |a| + j) == |a| + FlagIndexFrom(b, flag, j)
    decreases |b| - j
  {
    if j < |b| {
      assert (a + b)[|a| + j] == b[j];
      if b[j].0 != flag {
        FlagIndexFromShift(a, b, flag, j + 1);
      }
    }
  }

  lemma AccurateLookups(job: Job, startHms: string, durHms: string)
    ensures Lookup(AccuratePairs(job, startHms, durHms), "-i") == Some(job.videoPath)
    ensures Lookup(AccuratePairs(job, startHms, durHms), "-ss") == Some(startHms)
    ensures Lookup(AccuratePairs(job, startHms, durHms), "-t") == Some(durHms)
    ensures Lookup(AccuratePairs(job, startHms, durHms), "-map") == Some("0")
    ensures Lookup(AccuratePairs(job, startHms, durHms), "-c:v") == Some(job.codec)
    ensures Lookup(AccuratePairs(job, startHms, durHms), "-preset") == Some(job.preset)
    ensures Lookup(AccuratePairs(job, startHms, durHms), "-crf") == Some(IntToString(job.crf))
    ensures Lookup(AccuratePairs(job, startHms, durHms), "-c:a") == Some(if job.audioMode == "copy" then "copy" else "aac")
    ensures Lookup(AccuratePairs(job, startHms, durHms), "-b:a") == if job.audioMode == "copy" then None else Some(job.audioBitrate)
    ensures Lookup(AccuratePairs(job, startHms, durHms), "-c") == None
    ensures FlagIndex(AccuratePairs(job, startHms, durHms), "-i") < FlagIndex(AccuratePairs(job, startHms, durHms), "-ss")
  {
    var crf := IntToString(job.crf);
    var a, b := EncodePairs(job.videoPath, startHms, durHms, job.codec, job.preset, crf), AudioPairs(job);
    EncodeLookups(job.videoPath, startHms, durHms, job.codec, job.preset, crf);
    AudioLookups(job);
    FlagIndexConcat(a, b, "-i");
    FlagIndexConcat(a, b, "-ss");
    FlagIndexConcat(a, b, "-t");
    FlagIndexConcat(a, b, "-map");
    FlagIndexConcat(a, b, "-c:v");
    FlagIndexConcat(a, b, "-preset");
    FlagIndexConcat(a, b, "-crf");
    FlagIndexConcat(a, b, "-c:a");
    FlagIndexConcat(a, b, "-b:a");
    FlagIndexConcat(a, b, "-c");
  }

  /** The options of the FAST (stream copy) or the ACCURATE (re-encoding) layout, in command-line order. */
  function CommandPairs(job: Job, startHms: string, durHms: string): seq<(string, string)> {
    if job.mode == "FAST" then FastPairs(job.videoPath, startHms, durHms) else AccuratePairs(job, startHms, durHms)
  }

  /** The ffmpeg argument list for one segment: `ffmpeg -y`, the options, and the output path last. */
  function Command(job: Job, startHms: string, durHms: string, outPath: string): (cmd: seq<string>)
    ensures 3 <= |cmd| && cmd[|cmd| - 1] == outPath
  {
    ["ffmpeg", "-y"] + Flatten(CommandPairs(job, startHms, durHms)) + [outPath]
  }

  lemma Between(head: seq<string>, mid: seq<string>, last: string)
    requires |head| == 2
    ensures (head + mid + [last])[2..|head + mid + [last]| - 1] == mid
  {
  }

  /** The options of a command: everything between `ffmpeg -y` and the output path. */
  function Options(cmd: seq<string>): seq<(string, string)>
    requires 3 <= |cmd| && |cmd| % 2 == 1
  {
    OptionPairs(cmd[2..|cmd| - 1])
  }

  /** The position of the first pair at or after k with the given flag, or |pairs| when there is none. */
  function FlagIndexFrom(pairs: seq<(string, string)>, flag: string, k: nat): (r: nat)
    requires k <= |pairs|
    ensures k <= r <= |pairs|
    ensures r < |pairs| ==> pairs[r].0 == flag
    decreases |pairs| - k
  {
    if k == |pairs| then k
    else if pairs[k].0 == flag then k
    else FlagIndexFrom(pairs, flag, k + 1)
  }

  function FlagIndex(pairs: seq<(string, string)>, flag: string): (k: nat)
    ensures k <= |pairs|
  {
    FlagIndexFrom(pairs, flag, 0)
  }

  function Lookup(pairs: seq<(string, string)>, flag: string): Option<string> {
    var k := FlagIndex(pairs, flag);
    if k < |pairs| then Some(pairs[k].1) else None
  }

  /** Reading a built command back as flag/value pairs gives the options it was built from. */
  lemma CommandOptions(job: Job, startHms: string, durHms: string, outPath: string)
    ensures |Command(job, startHms, durHms, outPath)| % 2 == 1
    ensures Options(Command(job, startHms, durHms, outPath)) == CommandPairs(job, startHms, durHms)
  {
    OptionsOf(CommandPairs(job, startHms, durHms), outPath);
  }

  lemma OptionsOf(pairs: seq<(string, string)>, outPath: string)
    ensures |["ffmpeg", "-y"] + Flatten(pairs) + [outPath]| % 2 == 1
    ensures Options(["ffmpeg", "-y"] + Flatten(pairs) + [outPath]) == pairs
  {
    Between(["ffmpeg", "-y"], Flatten(pairs), outPath);
    OptionPairsFlatten(pairs);
  }

  /**
   * In both layouts the input is the video and the start and length are the
   * given times; the start comes before the input exactly in FAST mode.
   */
  lemma CommandTimes(job: Job, startHms: string, durHms: string)
    ensures Lookup(CommandPairs(job, startHms, durHms), "-i") == Some(job.videoPath)
    ensures Lookup(CommandPairs(job, startHms, durHms), "-ss") == Some(startHms)
    ensures Lookup(CommandPairs(job, startHms, durHms), "-t") == Some(durHms)
    ensures job.mode == "FAST" <==>
      FlagIndex(CommandPairs(job, startHms, durHms), "-ss") < FlagIndex(CommandPairs(job, startHms, durHms), "-i")
  {
    if job.mode == "FAST" {
      FastLookups(job.videoPath, startHms, durHms);
    } else {
      AccurateLookups(job, startHms, durHms);
    }
  }

  /**
   * The segment's start and length, as written on the command line, read back
   * to the millisecond. The texts the program writes agree with them unless a
   * millisecond field carries; a carried field reads back 0.9 s early.
   */
  lemma CommandSeconds(seg: Segment)
    ensures ParseTimeToSeconds(SecondsToHms(seg.startSec, true)) == Ok(RoundToMs(seg.startSec))
    ensures ParseTimeToSeconds(SecondsToHms(Duration(seg), true)) == Ok(RoundToMs(Duration(seg)))
    ensures MsField(seg.startSec) < 1000 ==>
      SecondsToHmsAsWritten(seg.startSec, true) == SecondsToHms(seg.startSec, true)
    ensures MsField(Duration(seg)) < 1000 ==>
      SecondsToHmsAsWritten(Duration(seg), true) == SecondsToHms(Duration(seg), true)
    ensures MsField(seg.startSec) == 1000 ==>
      ParseTimeToSeconds(SecondsToHmsAsWritten(seg.startSec, true)) == Ok(RoundToMs(seg.startSec) - 0.9)
    ensures MsField(Duration(seg)) == 1000 ==>
      ParseTimeToSeconds(SecondsToHmsAsWritten(Duration(seg), true)) == Ok(RoundToMs(Duration(seg)) - 0.9)
  {
    ProgramTimeText(seg.startSec);
    ProgramTimeText(Duration(seg));
  }

  /** One time text of the command, corrected and as the program writes it. */
  lemma ProgramTimeText(x: real)
    ensures ParseTimeToSeconds(SecondsToHms(x, true)) == Ok(RoundToMs(x))
    ensures MsField(x) < 1000 ==> SecondsToHmsAsWritten(x, true) == SecondsToHms(x, true)
    ensures MsField(x) == 1000 ==> ParseTimeToSeconds(SecondsToHmsAsWritten(x, true)) == Ok(RoundToMs(x) - 0.9)
  {
    SecondsToHmsRoundTrip(x);
    SecondsToHmsAsWrittenRoundTrip(x);
    if MsField(x) < 1000 {
      SecondsToHmsAgreement(x, true);
    } else {
      CarriedRounding(x);
    }
  }

  /** When the millisecond field carries, the time rounds to the next whole second. */
  lemma CarriedRounding(x: real)
    requires MsField(x) == 1000
    ensures RoundToMs(x) == ClampNonNeg(x).Floor as real + 1.0
  {
    var c := ClampNonNeg(x);
    var w := c.Floor;
    var frac := (c - w as real) * 1000.0;
    RoundHalfEvenShift(frac, 500 * w);
    assert frac + (2 * (500 * w)) as real == c * 1000.0;
  }

  /** With a colon-free base name, the output name holds no ':' at all. */
  lemma OutputNameNoColon(base: string, idx: nat, seg: Segment)
    requires ':' !in base
    ensures ':' !in OutputName(base, idx, seg)
  {
    var pad := PadNat(idx, 2);
    PadNatValue(idx, 2);
    DigitsLack(pad, ':');
    HasCharIn(pad, ':');
    ReplaceCharRemoves(seg.startText, ':', '-');
    HasCharIn(SafeText(seg.startText), ':');
    ReplaceCharRemoves(seg.endText, ':', '-');
    HasCharIn(SafeText(seg.endText), ':');
  }

  /** Below 100 the position is spelled in the two digits after `<base>_parca`. */
  lemma OutputNameIndex(base: string, idx: nat, seg: Segment)
    requires idx < 100
    ensures |base| + 8 <= |OutputName(base, idx, seg)|
    ensures OutputName(base, idx, seg)[|base| + 6..|base| + 8] == PadNat(idx, 2)
    ensures DigitsValue(OutputName(base, idx, seg)[|base| + 6..|base| + 8]) == idx
  {
    var name := OutputName(base, idx, seg);
    var pad := PadNat(idx, 2);
    PadNatValue(idx, 2);
    PadNatWidth(idx, 2);
    assert |pad| == 2;
    var rest := "_" + SafeText(seg.startText) + "_to_" + SafeText(seg.endText) + ".mp4";
    assert name == (base + "_parca") + pad + rest;
    assert name[|base| + 6..|base| + 8] == pad;
  }

  /** Different positions below 100 give different file names, whatever the times. */
  lemma OutputNamesDistinct(base: string, i: nat, j: nat, a: Segment, b: Segment)
    requires i < 100 && j < 100 && i != j
    ensures OutputName(base, i, a) != OutputName(base, j, b)
  {
    OutputNameIndex(base, i, a);
    OutputNameIndex(base, j, b);
  }

  // ---------------------------------------------------------------------------
  // The messages of one run
  // ---------------------------------------------------------------------------

  /** The status a run of ffmpeg ends with. */
  function FinalStatus(o: Outcome): (s: Status)
    ensures !s.Running? && !s.NotPositive?
    ensures s == Finished <==> o.Exited? && o.code == 0
    ensures s.IsFailure() <==> !(o.Exited? && o.code == 0)
  {
    match o
    case Exited(code, _) => if code == 0 then Finished else FailedWithCode(code)
    case NotLaunched(reason) => FailedToLaunch(reason)
  }

  function OutcomeMessages(i: nat, o: Outcome): seq<Message> {
    match o
    case Exited(code, output) =>
      if code == 0 then [SegmentStatus(i, Finished)]
      else [SegmentStatus(i, FailedWithCode(code)), Log(FailureOutput(ErrorTail(output)))]
    case NotLaunched(reason) => [SegmentStatus(i, FailedToLaunch(reason))]
  }

  /** The messages for segment i of total that is cut into `name` by `cmd`. */
  function CutMessages(i: nat, total: nat, name: string, cmd: seq<string>, o: Outcome): seq<Message>
    requires total > 0
  {
    [SegmentStatus(i, Running), Log(OutputLine(i + 1, total, name)), Log(CommandLine(cmd))]
    + OutcomeMessages(i, o)
    + [Progress((i + 1) as real / total as real)]
  }

  /** Everything one loop iteration puts on the queue for segment i with ffmpeg outcome o. */
  function SegmentMessages(job: Job, segs: seq<Segment>, i: nat, o: Outcome): seq<Message>
    requires i < |segs|
  {
    if Duration(segs[i]) <= 0.0 then [SegmentStatus(i, NotPositive)]
    else
      var name := OutputName(job.baseName, i + 1, segs[i]);
      var cmd := Command(job, SecondsToHms(segs[i].startSec, true), SecondsToHms(Duration(segs[i]), true),
                         JoinPath(job.outDir, name));
      CutMessages(i, |segs|, name, cmd, o)
  }

  /** The messages of every segment, as if the run were never stopped. */
  function Chunks(job: Job, segs: seq<Segment>, outcomes: seq<Outcome>): (chunks: seq<seq<Message>>)
    requires |segs| == |outcomes|
    ensures |chunks| == |segs|
  {
    seq(|segs|, k requires 0 <= k < |segs| => SegmentMessages(job, segs, k, outcomes[k]))
  }

  /** The first n chunks, one after the other. */
  function Concat(chunks: seq<seq<Message>>, n: nat): seq<Message>
    requires n <= |chunks|
  {
    if n == 0 then [] else Concat(chunks, n - 1) + chunks[n - 1]
  }

  /** How many segments are processed when the stop is first seen at iteration `stop`. */
  function Processed(segs: seq<Segment>, stop: nat): (n: nat)
    ensures n <= |segs| && n <= stop
    ensures n == stop || n == |segs|
  {
    if stop < |segs| then stop else |segs|
  }

  /**
   * A segment without a length gets the single status `HATA: süre <= 0`:
   * no output line, no command and no progress value.
   */
  lemma ZeroLengthSegment(job: Job, segs: seq<Segment>, i: nat, o: Outcome)
    requires i < |segs| && Duration(segs[i]) <= 0.0
    ensures SegmentMessages(job, segs, i, o) == [SegmentStatus(i, NotPositive)]
    ensures StatusText(NotPositive) == "HATA: süre <= 0"
  {
  }

  /** The whole queue traffic of `run`. */
  function RunMessages(job: Job, segs: seq<Segment>, outcomes: seq<Outcome>, stop: nat): seq<Message>
    requires |segs| == |outcomes|
  {
    [Overall(|segs|)]
    + Concat(Chunks(job, segs, outcomes), Processed(segs, stop))
    + (if stop < |segs| then [Log(StopLine)] else [])
    + [Done]
  }

  lemma Finish(q: seq<Message>, a: seq<Message>, b: seq<Message>, c: seq<Message>, d: Message)
    ensures q + a + b + c + [d] == q + (a + b + c + [d])
  {
  }

  lemma Regroup3(q: seq<Message>, a: Message, b: Message, c: Message)
    ensures q + [a] + [b] + [c] == q + [a, b, c]
  {
  }

  lemma Regroup2(q: seq<Message>, a: Message, b: Message)
    ensures q + [a] + [b] == q + [a, b]
  {
  }

  lemma Regroup(q: seq<Message>, a: seq<Message>, b: seq<Message>, c: seq<Message>)
    ensures q + a + b + c == q + (a + b + c)
    ensures q + a + b + c == (q + a) + (b + c)
  {
  }

  class CutterWorker {
    const job: Job
    const segments: seq<Segment>
    var q: seq<Message>
    var stopRequested: bool

    constructor (job: Job, segments: seq<Segment>)
      ensures this.job == job && this.segments == segments
      ensures q == [] && !stopRequested
    {
      this.job := job;
      this.segments := segments;
      q := [];
      stopRequested := false;
    }

    /** `stop`: only raises the flag, so calling it again changes nothing more. */
    method Stop()
      modifies this
      ensures stopRequested && q == old(q)
    {
      stopRequested := true;
    }

    /** `q.put`. */
    method Put(m: Message)
      modifies this
      ensures q == old(q) + [m] && stopRequested == old(stopRequested)
    {
      q := q + [m];
    }

    /** One iteration of `run` past the stop check: segment i, whose ffmpeg run yields `outcome`. */
    method Cut(i: nat, outcome: Outcome)
      requires i < |segments|
      modifies this
      ensures q == old(q) + SegmentMessages(job, segments, i, outcome)
      ensures stopRequested == old(stopRequested)
    {
      var total := |segments|;
      var seg := segments[i];
      var duration := Duration(seg);
      if duration <= 0.0 {
        Put(SegmentStatus(i, NotPositive));
        return;
      }
      var startHms := SecondsToHms(seg.startSec, true);
      var durHms := SecondsToHms(duration, true);
      var name := OutputName(job.baseName, i + 1, seg);
      var outPath := JoinPath(job.outDir, name);
      var cmd := Command(job, startHms, durHms, outPath);
      Put(SegmentStatus(i, Running));
      Put(Log(OutputLine(i + 1, total, name)));
      Put(Log(CommandLine(cmd)));
      Regroup3(old(q), SegmentStatus(i, Running), Log(OutputLine(i + 1, total, name)), Log(CommandLine(cmd)));
      ghost var started := q;
      match outcome {
        case Exited(code, output) =>
          if code == 0 {
            Put(SegmentStatus(i, Finished));
          } else {
            Put(SegmentStatus(i, FailedWithCode(code)));
            Put(Log(FailureOutput(ErrorTail(output))));
            Regroup2(started, SegmentStatus(i, FailedWithCode(code)), Log(FailureOutput(ErrorTail(output))));
          }
        case NotLaunched(reason) =>
          Put(SegmentStatus(i, FailedToLaunch(reason)));
      }
      assert q == started + OutcomeMessages(i, outcome);
      Put(Progress((i + 1) as real / total as real));
      Regroup(old(q), [SegmentStatus(i, Running), Log(OutputLine(i + 1, total, name)), Log(CommandLine(cmd))],
              OutcomeMessages(i, outcome), [Progress((i + 1) as real / total as real)]);
    }

    /**
     * `run`. A `stop()` issued while the worker runs takes effect at the top
     * of iteration `stopAt`; the loop calls `Stop` there to stand for it.
     */
    method Run(stopAt: nat, outcomes: seq<Outcome>)
      requires |outcomes| == |segments|
      modifies this
      ensures q == old(q) + RunMessages(job, segments, outcomes, if old(stopRequested) then 0 else stopAt)
      ensures stopRequested == (old(stopRequested) || stopAt < |segments|)
    {
      ghost var q0 := q;
      ghost var stop := if stopRequested then 0 else stopAt;
      ghost var chunks := Chunks(job, segments, outcomes);
      var total := |segments|;
      Put(Overall(total));
      Loop(stopAt, outcomes, chunks);
      Put(Done);
      Finish(q0, [Overall(total)], Concat(chunks, Processed(segments, stop)),
             if stop < total then [Log(StopLine)] else [], Done);
    }

    /** The `for` loop of `run`, with the messages of segment k given as `chunks[k]`. */
    method Loop(stopAt: nat, outcomes: seq<Outcome>, ghost chunks: seq<seq<Message>>)
      requires |outcomes| == |segments| == |chunks|
      requires forall k {:trigger outcomes[k]} :: 0 <= k < |segments| ==>
        chunks[k] == SegmentMessages(job, segments, k, outcomes[k])
      modifies this
      ensures q == old(q) + Concat(chunks, Processed(segments, if old(stopRequested) then 0 else stopAt))
                          + (if (if old(stopRequested) then 0 else stopAt) < |segments| then [Log(StopLine)] else [])
      ensures stopRequested == (old(stopRequested) || stopAt < |segments|)
    {
      ghost var stop := if stopRequested then 0 else stopAt;
      var total := |segments|;
      var i := 0;
      while i < total
        invariant i <= total && i <= stop
        invariant q == old(q) + Concat(chunks, i)
        invariant stopRequested == old(stopRequested)
      {
        if i == stopAt {
          Stop();
        }
        if stopRequested {
          Put(Log(StopLine));
          break;
        }
        ghost var before := q;
        Cut(i, outcomes[i]);
        assert q == before + chunks[i];
        Assoc(old(q), Concat(chunks, i), chunks[i]);
        i := i + 1;
      }
    }
  }
}
