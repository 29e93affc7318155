# EBS video segment cutter — a Dafny model

The repository holds two Tk programs that cut a video into pieces with
ffmpeg:

- `ebs-video-parca-kesici.py` is the original tool. The user enters time ranges in a table, types them or imports them from a text file, and a background worker runs one ffmpeg command per range.
- `Ebs-Video-Parca-Kesici-Zaman-Cizelgeli.py` repeats that logic. It adds a video player with ffplay audio, a seek bar and a timeline on which ranges are drawn, selected and deleted.

The two files share the time codec, the `Segment` record, the cutter loop
and the table helpers almost line for line. The model states that logic
once. The table below cites the timeline program. The same code in the
original tool sits at these lines:

- `parse_time_to_seconds`: ebs-video-parca-kesici.py:49-74
- `seconds_to_hms`: ebs-video-parca-kesici.py:77-85. It has no `ms` flag and always writes the milliseconds, with the same carry as the timeline program's, so it is `SecondsToHmsAsWritten(x, true)`.
- `Segment.duration_sec`: ebs-video-parca-kesici.py:97-99
- `CutterWorker.stop` and `run`: ebs-video-parca-kesici.py:138-216
- `_add_range`: ebs-video-parca-kesici.py:419-431. It stores the texts as typed; the model's `hmsTexts = false`.
- `_import_from_text`: ebs-video-parca-kesici.py:459-497
- `_collect_segments`: ebs-video-parca-kesici.py:499-507
- `_set_row_status`: ebs-video-parca-kesici.py:609-616

The modules follow the programs' parts:

- `TimeCodec`: `parse_time_to_seconds`, `seconds_to_hms` and the `_sec_label` tick labels. Times are exact reals.
- `Segments`: `Segment` and its clamped duration.
- `Cutter`: the ffmpeg command and output name for each segment, and the `CutterWorker` class. Its `Run` method appends to the message queue `q`.
- `RunProperties`: what a run's message sequence promises. It covers the frame (`overall` first, one `done` last, an optional stop note), the statuses each segment receives and the progress values.
- `Playback`: the `VideoPlayer` state machine as a class. It covers play and pause, scrubbing, seek, load and close, the reader thread, the one-slot frame mailbox and the ffplay process. Each method is tied to a pure transition function, and the lemmas speak about those functions.
- `Timeline`: the seconds/pixels conversions shared by the seek bar and the timeline, and the timeline's register. The register is the ordered list of Tk ids `rects` plus the dictionary `data` from id to interval, held in a class.
- `RangeTable`: the cut-list table as a class. It covers adding a range, the line grammar of the text import, collecting the segments, the status column and deleting a row on the timeline's request.
- `Numerals`, `Text`, `Wrappers`, `Seqs`: digit strings, Python's `strip`/`split`/`lower` on ASCII text, `Option`/`Result`, and the regrouping of concatenations.

The external world enters as parameters:

- **ffmpeg:** each run of ffmpeg is an `Outcome`. This is the exit code and merged output, or the exception that stopped the launch.
- **Stopping:** the moment the user presses *stop* is the index of the first iteration whose check sees the flag.
- **OpenCV:** the capture is a flag, a frame rate and the frame a read returns.
- **ffplay:** whether it is installed and whether launching it succeeds form an `Env`.
- **The Tk main loop:** the scheduled `after(0, _deliver_frame, sec)` calls form a queue `deliveries`.

## Model

| member | source | states |
|---|---|---|
| TimeCodec.ParseTimeToSeconds | Ebs-Video-Parca-Kesici-Zaman-Cizelgeli.py:68-85 | an accepted time is never negative |
| TimeCodec.ParseTimeRejects | Ebs-Video-Parca-Kesici-Zaman-Cizelgeli.py:73-85 | text that is blank after stripping fails with "empty"; text with three or more `:` (four or more fields) fails with "bad format" |
| TimeCodec.NonIntegerFieldRejected | Ebs-Video-Parca-Kesici-Zaman-Cizelgeli.py:78-84 | with one or two `:`, any field before the last that `int` rejects makes the whole text rejected |
| TimeCodec.ParseTimeExampleFractionFirst | Ebs-Video-Parca-Kesici-Zaman-Cizelgeli.py:82-84 | "1.5:30" is rejected: a fraction can only stand in the last field |
| TimeCodec.ParseClean | Ebs-Video-Parca-Kesici-Zaman-Cizelgeli.py:73 | stripping and `,`→`.` leave a text of digits, `:` and `.` unchanged |
| TimeCodec.ParseNormalisedDecimal | Ebs-Video-Parca-Kesici-Zaman-Cizelgeli.py:76-77 | a non-empty text without `:` parses as the plain number of seconds `float` reads |
| TimeCodec.ParseDecimalComma | Ebs-Video-Parca-Kesici-Zaman-Cizelgeli.py:73 | `W,F` parses to W + 0.F: a comma acts as the decimal point |
| TimeCodec.ParseMsText | Ebs-Video-Parca-Kesici-Zaman-Cizelgeli.py:79-81 | `M:S` with a digit field M and a number S parses to M·60 + S |
| TimeCodec.ParseHmsText | Ebs-Video-Parca-Kesici-Zaman-Cizelgeli.py:82-84 | `H:M:S` with digit fields H and M parses to H·3600 + M·60 + S |
| TimeCodec.ParseTimeExampleHms | Ebs-Video-Parca-Kesici-Zaman-Cizelgeli.py:68-85 | "1:02:03.5" parses to 3723.5 |
| TimeCodec.ParseTimeExampleMs | Ebs-Video-Parca-Kesici-Zaman-Cizelgeli.py:79-81 | "02:03" parses to 123 |
| TimeCodec.ParseTimeExampleComma | Ebs-Video-Parca-Kesici-Zaman-Cizelgeli.py:73-77 | "12,5" parses to 12.5 |
| TimeCodec.ParseTimeExampleFourFields | Ebs-Video-Parca-Kesici-Zaman-Cizelgeli.py:85 | "1:2:3:4" is rejected for its field count |
| TimeCodec.RoundHalfEven | Ebs-Video-Parca-Kesici-Zaman-Cizelgeli.py:90 | Python's `round`: the result lies within ½ of the input, and a tie goes to the even neighbour |
| TimeCodec.SecondsToHms | Ebs-Video-Parca-Kesici-Zaman-Cizelgeli.py:87-94 | below 100 hours the text has 12 characters with milliseconds and 8 without |
| TimeCodec.SecondsToHmsNoMsRoundTrip | Ebs-Video-Parca-Kesici-Zaman-Cizelgeli.py:87-94 | reading back `HH:MM:SS` gives the whole seconds of the input, with a negative input read as 0 |
| TimeCodec.SecondsToHmsRoundTrip | Ebs-Video-Parca-Kesici-Zaman-Cizelgeli.py:87-94 | reading back `HH:MM:SS.mmm` gives the input rounded to the millisecond, with a negative input read as 0 |
| TimeCodec.SecondsToHmsExact | Ebs-Video-Parca-Kesici-Zaman-Cizelgeli.py:87-94 | for a whole number of milliseconds, reading back the text returns the input itself |
| TimeCodec.RoundToMs | Ebs-Video-Parca-Kesici-Zaman-Cizelgeli.py:88-90 | the millisecond rounding of the clamped input is never negative and lies within 0.0005 s of it |
| TimeCodec.SecondsToHmsAgreement | Ebs-Video-Parca-Kesici-Zaman-Cizelgeli.py:87-94 | when the rounded fraction does not reach 1000, the code as written and the corrected formatter give the same text |
| TimeCodec.SecondsToHmsAsWritten | Ebs-Video-Parca-Kesici-Zaman-Cizelgeli.py:87-94 | the formatter as written; below 100 hours its text has 8 characters without milliseconds, and with them 12, or 13 when the millisecond field reaches 1000 |
| TimeCodec.MsField | Ebs-Video-Parca-Kesici-Zaman-Cizelgeli.py:90 | the millisecond field the code writes lies between 0 and 1000 inclusive |
| TimeCodec.SecondsToHmsAsWrittenRoundTrip | Ebs-Video-Parca-Kesici-Zaman-Cizelgeli.py:87-94 | the code's text reads back as the input rounded to the millisecond, unless the millisecond field reaches 1000; then it reads back as the whole seconds plus 0.1 |
| TimeCodec.SecondsToHmsAsWrittenExact | Ebs-Video-Parca-Kesici-Zaman-Cizelgeli.py:87-94 | for a whole number of milliseconds the code's field never carries, and reading back its text returns the input itself |
| TimeCodec.SecondsToHmsCarryLost | Ebs-Video-Parca-Kesici-Zaman-Cizelgeli.py:90 | the as-written text of 1.9996 s reads back as 1.1 s; the corrected one reads back as 2.0 s |
| TimeCodec.SecLabel | Ebs-Video-Parca-Kesici-Zaman-Cizelgeli.py:839-844 | a tick label; `SecLabelForm` and `SecLabelRoundTrip` prove that it is `HH:MM:SS` from an hour on and `MM:SS` below, and that it reads back as the second rounded half to even |
| TimeCodec.SecLabelForm | Ebs-Video-Parca-Kesici-Zaman-Cizelgeli.py:839-844 | a tick label is `HH:MM:SS` from one hour upwards, `MM:SS` below |
| TimeCodec.SecLabelRoundTrip | Ebs-Video-Parca-Kesici-Zaman-Cizelgeli.py:580-583 | a tick label reads back as the rounded second, and has exactly one `:` precisely when that second is below 3600 |
| TimeCodec.MinSecParses | Ebs-Video-Parca-Kesici-Zaman-Cizelgeli.py:844 | `MM:SS` reads back as its number of seconds and has one `:` |
| TimeCodec.ClockColons | Ebs-Video-Parca-Kesici-Zaman-Cizelgeli.py:844 | `HH:MM:SS` has two `:` |
| Segments.Duration | Ebs-Video-Parca-Kesici-Zaman-Cizelgeli.py:105-107 | the duration is never negative and is at least end − start; it is positive exactly when start < end |
| Cutter.StatusText | Ebs-Video-Parca-Kesici-Zaman-Cizelgeli.py:147-183 | a status text starts with "HATA" exactly when the status is a failure (zero length, non-zero exit, launch exception) |
| Cutter.ErrorTail | Ebs-Video-Parca-Kesici-Zaman-Cizelgeli.py:181 | empty output logs "Hata çıktısı yok."; other output logs its last min(n, 1000) characters |
| Cutter.JoinPath | Ebs-Video-Parca-Kesici-Zaman-Cizelgeli.py:157 | the output path ends with the output name |
| Cutter.FastLookups | Ebs-Video-Parca-Kesici-Zaman-Cizelgeli.py:160-161 | the FAST options carry `-ss` start, `-i` path, `-t` duration, `-c copy` and `-avoid_negative_ts 1`, no `-c:v`, and `-ss` before `-i` |
| Cutter.EncodeLookups | Ebs-Video-Parca-Kesici-Zaman-Cizelgeli.py:163-164 | the ACCURATE video options carry `-i`, `-ss`, `-t`, `-map 0`, `-c:v` codec, `-preset` and `-crf`, and no audio option |
| Cutter.AudioLookups | Ebs-Video-Parca-Kesici-Zaman-Cizelgeli.py:165-168 | audio mode "copy" gives `-c:a copy` with no bitrate; any other gives `-c:a aac -b:a` bitrate |
| Cutter.AccurateLookups | Ebs-Video-Parca-Kesici-Zaman-Cizelgeli.py:162-169 | all of the ACCURATE options together, `-crf` as the decimal text of the number, and `-i` before `-ss` |
| Cutter.Command | Ebs-Video-Parca-Kesici-Zaman-Cizelgeli.py:159-169 | the ffmpeg argument list; its ensures puts the output path last, and `CommandOptions`, `CommandTimes`, `FastLookups` and `AccurateLookups` prove the layout of each mode |
| Cutter.CommandOptions | Ebs-Video-Parca-Kesici-Zaman-Cizelgeli.py:159-169 | a command is `ffmpeg -y`, flag/value pairs and the output path last; reading its pairs back gives the options it was built from |
| Cutter.OptionPairsFlatten | Ebs-Video-Parca-Kesici-Zaman-Cizelgeli.py:160-168 | writing options out as an argument list and reading them back as pairs is the identity |
| Cutter.CommandTimes | Ebs-Video-Parca-Kesici-Zaman-Cizelgeli.py:159-169 | every command carries the input, start and duration, and `-ss` precedes `-i` exactly in FAST mode |
| Cutter.CommandSeconds | Ebs-Video-Parca-Kesici-Zaman-Cizelgeli.py:151-152 | the model's start and duration texts read back as the segment's start and duration, rounded to the millisecond; the program's texts are the same unless a millisecond field carries, and a carried one reads back 0.9 s before the rounded time |
| Cutter.OutputName | Ebs-Video-Parca-Kesici-Zaman-Cizelgeli.py:154-156 | the output file name; `OutputNameNoColon`, `OutputNameIndex` and `OutputNamesDistinct` prove that it holds no `:` for a colon-free base, that its two-digit index reads back, and that different indices below 100 give different names |
| Cutter.OutputNameNoColon | Ebs-Video-Parca-Kesici-Zaman-Cizelgeli.py:154-156 | an output name has no `:` when the base name has none: both times have theirs replaced by `-` |
| Cutter.OutputNameIndex | Ebs-Video-Parca-Kesici-Zaman-Cizelgeli.py:156 | the two characters after `<base>_parca` are the index padded to two digits, and they read back as the index |
| Cutter.OutputNamesDistinct | Ebs-Video-Parca-Kesici-Zaman-Cizelgeli.py:156 | segments with different indices below 100 get different output names |
| Cutter.FinalStatus | Ebs-Video-Parca-Kesici-Zaman-Cizelgeli.py:175-183 | a run ends in "BİTTİ" exactly when ffmpeg exits with 0, and otherwise in a failure |
| Cutter.Processed | Ebs-Video-Parca-Kesici-Zaman-Cizelgeli.py:141-144 | the loop handles the segments before the stop index, or all of them |
| Cutter.SegmentMessages | Ebs-Video-Parca-Kesici-Zaman-Cizelgeli.py:146-185 | the messages of one iteration; `SegmentFacts` and `CutFacts` prove that they carry statuses only for that segment, ÇALIŞIYOR… and then one final status, and one progress value exactly when the segment has a length |
| Cutter.ZeroLengthSegment | Ebs-Video-Parca-Kesici-Zaman-Cizelgeli.py:146-149 | a segment without a length gets only the status `HATA: süre <= 0`, with no output line, command or progress value |
| Cutter.RunMessages | Ebs-Video-Parca-Kesici-Zaman-Cizelgeli.py:135-189 | the messages of a whole run; `RunShape`, `RunStatuses` and `RunProgress` prove the frame, the statuses per segment and the progress values |
| Cutter.CutterWorker.constructor | Ebs-Video-Parca-Kesici-Zaman-Cizelgeli.py:116-130 | a new worker has an empty queue and the stop flag down |
| Cutter.CutterWorker.Stop | Ebs-Video-Parca-Kesici-Zaman-Cizelgeli.py:132-133 | `stop` raises the flag and puts nothing on the queue; calling it twice is the same as once |
| Cutter.CutterWorker.Put | Ebs-Video-Parca-Kesici-Zaman-Cizelgeli.py:139 | a `q.put` appends one message |
| Cutter.CutterWorker.Cut | Ebs-Video-Parca-Kesici-Zaman-Cizelgeli.py:146-185 | one iteration appends exactly that segment's messages |
| Cutter.CutterWorker.Loop | Ebs-Video-Parca-Kesici-Zaman-Cizelgeli.py:141-185 | the loop appends the messages of the segments before the stop, then the stop note if it stopped |
| Cutter.CutterWorker.Run | Ebs-Video-Parca-Kesici-Zaman-Cizelgeli.py:135-189 | `run` appends exactly the run's message sequence; a stop raised before the run makes it process nothing |
| RunProperties.ExpectedStatusesShape | Ebs-Video-Parca-Kesici-Zaman-Cizelgeli.py:146-183 | a segment's statuses are "ÇALIŞIYOR…" and then one final status; a zero-length segment gets only the final one, and the final one is a failure unless the segment has a length and ffmpeg exited with 0 |
| RunProperties.OutcomeFacts | Ebs-Video-Parca-Kesici-Zaman-Cizelgeli.py:175-183 | a finished ffmpeg run reports only its own segment's final status and no progress |
| RunProperties.CutFacts | Ebs-Video-Parca-Kesici-Zaman-Cizelgeli.py:171-185 | a segment that reaches ffmpeg gets "ÇALIŞIYOR…" and its final status, and exactly one progress value (i+1)/total |
| RunProperties.SegmentFacts | Ebs-Video-Parca-Kesici-Zaman-Cizelgeli.py:146-185 | an iteration's messages give statuses only to its own segment, and progress only when the segment has a length |
| RunProperties.ConcatFacts | Ebs-Video-Parca-Kesici-Zaman-Cizelgeli.py:141-185 | over the first n iterations, segment j has its expected statuses if j < n and none otherwise, and the progress values are those of the segments with length |
| RunProperties.FrameShape | Ebs-Video-Parca-Kesici-Zaman-Cizelgeli.py:139-187 | `overall` comes first, `done` once and last, and the stop note comes only just before `done` |
| RunProperties.FrameCounts | Ebs-Video-Parca-Kesici-Zaman-Cizelgeli.py:139-187 | the `overall`, stop and `done` messages add no status and no progress |
| RunProperties.RunShape | Ebs-Video-Parca-Kesici-Zaman-Cizelgeli.py:135-189 | the first message of a run is `overall` and the last is its only `done`. The stop note comes just before `done`, and exactly when the stop was seen before the end. An empty list gives `overall` then `done` |
| RunProperties.RunStatuses | Ebs-Video-Parca-Kesici-Zaman-Cizelgeli.py:141-183 | a segment reached before the stop gets its expected statuses; a segment after the stop gets none |
| RunProperties.RunProgress | Ebs-Video-Parca-Kesici-Zaman-Cizelgeli.py:146-185 | the progress values are idx/total for the reached segments with a length, in order; a zero-length segment reports none |
| RunProperties.ExpectedProgressIncreasing | Ebs-Video-Parca-Kesici-Zaman-Cizelgeli.py:185 | the progress values strictly increase and lie in (0, 1] |
| Timeline.ClampSec | Ebs-Video-Parca-Kesici-Zaman-Cizelgeli.py:664 | a clamped second lies in [0, duration], and a second already inside is kept |
| Timeline.ClampX | Ebs-Video-Parca-Kesici-Zaman-Cizelgeli.py:828-830 | a clamped x lies between the two paddings |
| Timeline.SecToX | Ebs-Video-Parca-Kesici-Zaman-Cizelgeli.py:816-820 | a second's x position; `SecToXOnBar`, `SecToXMonotone` and `SecToXRoundTrip` prove that it lies on the bar, is monotone and reads back as the clamped second |
| Timeline.XToSec | Ebs-Video-Parca-Kesici-Zaman-Cizelgeli.py:822-826 | the second at an x position; `XToSecInVideo` and `XToSecRoundTrip` prove that it lies in the video and maps back to the clamped x |
| Timeline.SecToXOnBar | Ebs-Video-Parca-Kesici-Zaman-Cizelgeli.py:816-820 | every second maps onto the bar between the paddings |
| Timeline.SecToXMonotone | Ebs-Video-Parca-Kesici-Zaman-Cizelgeli.py:816-820 | a later second never maps to a smaller x |
| Timeline.XToSecInVideo | Ebs-Video-Parca-Kesici-Zaman-Cizelgeli.py:822-826 | every x maps to a second in [0, duration] |
| Timeline.SecToXRoundTrip | Ebs-Video-Parca-Kesici-Zaman-Cizelgeli.py:816-826 | mapping a second to x and back gives the second clamped into the video |
| Timeline.XToSecRoundTrip | Ebs-Video-Parca-Kesici-Zaman-Cizelgeli.py:816-830 | mapping an x to a second and back gives the x clamped onto the bar |
| Timeline.IndexOf | Ebs-Video-Parca-Kesici-Zaman-Cizelgeli.py:736 | the position `list.remove` deletes is the first occurrence of the id |
| Timeline.RemoveFirstDistinct | Ebs-Video-Parca-Kesici-Zaman-Cizelgeli.py:736 | removing an id from a duplicate-free list keeps it duplicate-free and drops exactly that id |
| Timeline.AddRegister | Ebs-Video-Parca-Kesici-Zaman-Cizelgeli.py:655-656 | appending a fresh id to `rects` and `data` keeps the two in step |
| Timeline.AddIntervals | Ebs-Video-Parca-Kesici-Zaman-Cizelgeli.py:655-656 | the interval sequence grows by the new interval at the end |
| Timeline.RedrawRegister | Ebs-Video-Parca-Kesici-Zaman-Cizelgeli.py:788-803 | re-creating every rectangle under fresh ids keeps the register consistent and the intervals in order |
| Timeline.DeleteRegister | Ebs-Video-Parca-Kesici-Zaman-Cizelgeli.py:736-737 | removing an id from both `rects` and `data` keeps them in step |
| Timeline.DeleteIntervals | Ebs-Video-Parca-Kesici-Zaman-Cizelgeli.py:736-737 | deleting an id removes exactly its interval and keeps the others in order |
| Timeline.ReclampPlayhead | Ebs-Video-Parca-Kesici-Zaman-Cizelgeli.py:804-805 | a redraw keeps a playhead present or absent, and a present one ends up inside the video |
| Timeline.DeleteAsWritten | Ebs-Video-Parca-Kesici-Zaman-Cizelgeli.py:732-742 | `_on_delete` as written removes the selected id, which raises when the id is stale; a registered selection is removed cleanly |
| Timeline.StaleSelectionRaises | Ebs-Video-Parca-Kesici-Zaman-Cizelgeli.py:736 | a selected id missing from `rects` makes `rects.remove` raise ValueError |
| Timeline.StaleDeleteExample | Ebs-Video-Parca-Kesici-Zaman-Cizelgeli.py:785-813 | add a range, select it, redraw, press Delete: the code as written raises |
| Timeline.DeleteAsWrittenRegistered | Ebs-Video-Parca-Kesici-Zaman-Cizelgeli.py:732-742 | for a selection that is still registered, the code as written removes the id and reports its interval |
| Timeline.Timeline.constructor | Ebs-Video-Parca-Kesici-Zaman-Cizelgeli.py:598-630 | a new timeline has zero duration, no rectangles, no selection and no playhead |
| Timeline.Timeline.AddSegment | Ebs-Video-Parca-Kesici-Zaman-Cizelgeli.py:646-658 | `end <= start` or no duration leaves the register alone; otherwise one fresh id is appended with its interval |
| Timeline.Timeline.SetPlayhead | Ebs-Video-Parca-Kesici-Zaman-Cizelgeli.py:661-672 | without a duration nothing changes; otherwise the playhead is the clamped second |
| Timeline.Timeline.Redraw | Ebs-Video-Parca-Kesici-Zaman-Cizelgeli.py:785-806 | the same intervals, in order, under fresh ids; the selection is left pointing at an old id; the playhead is clamped again |
| Timeline.Timeline.Clear | Ebs-Video-Parca-Kesici-Zaman-Cizelgeli.py:638-644 | no rectangles, no data and no selection remain |
| Timeline.Timeline.SetDuration | Ebs-Video-Parca-Kesici-Zaman-Cizelgeli.py:634-636 | the duration becomes max(0.01, seconds); the redraw keeps the intervals and the width, gives fresh ids, and leaves a kept selection stale |
| Timeline.Timeline.SelectRect | Ebs-Video-Parca-Kesici-Zaman-Cizelgeli.py:808-813 | the selection becomes the given id, and nothing else changes |
| Timeline.Timeline.OnDelete | Ebs-Video-Parca-Kesici-Zaman-Cizelgeli.py:732-742 | a registered selection is removed from `rects` and `data` with its interval reported; a stale or missing one changes nothing; the selection is cleared |
| Playback.FpsOf | Ebs-Video-Parca-Kesici-Zaman-Cizelgeli.py:248-249 | the kept frame rate is above 1: the reported one, or 30 |
| Playback.StopAudioOf | Ebs-Video-Parca-Kesici-Zaman-Cizelgeli.py:433-439 | the transition of `stop_audio`; `VideoPlayer.StopAudio` performs it, and every invariant lemma builds on it |
| Playback.StartAudioOf | Ebs-Video-Parca-Kesici-Zaman-Cizelgeli.py:413-431 | the transition of `start_audio`; `WarnOnce` proves that a missing ffplay starts nothing, sets `warned` the first time and changes nothing else |
| Playback.RestartAudioOf | Ebs-Video-Parca-Kesici-Zaman-Cizelgeli.py:441-447 | the transition of `restart_audio`; `SeekFacts` proves that a seek during normal playback restarts ffplay at the clamped target when it is installed and a path is set, and leaves no ffplay running otherwise |
| Playback.StartThreadOf | Ebs-Video-Parca-Kesici-Zaman-Cizelgeli.py:307-312 | the transition of `start_thread`; `TogglePlayInv` proves that the thread runs only while playing |
| Playback.StopThreadOf | Ebs-Video-Parca-Kesici-Zaman-Cizelgeli.py:314-318 | the transition of `stop_thread`; `BeginScrubEffect` proves that a scrub stops the thread |
| Playback.CloseOf | Ebs-Video-Parca-Kesici-Zaman-Cizelgeli.py:255-264 | the transition of `close`; `CloseReaderDeliverInv` proves that it keeps the player invariant |
| Playback.SeekOf | Ebs-Video-Parca-Kesici-Zaman-Cizelgeli.py:388-407 | the transition of `seek`; `SeekFacts` and `MailboxKeepsNewest` prove the no-capture case, the clamped target, the mailbox holding the newest frame, and that the audio changes exactly during normal playback, restarting at the clamped target |
| Playback.LoadOf | Ebs-Video-Parca-Kesici-Zaman-Cizelgeli.py:238-253 | the transition of the corrected `load`; `LoadFacts` and `LoadKeepsSilent` prove the duration and frame-rate rules, that the video is paused and that no ffplay runs |
| Playback.TogglePlayOf | Ebs-Video-Parca-Kesici-Zaman-Cizelgeli.py:266-279 | the transition of `toggle_play`; `TogglePlayInv` proves that it keeps the invariant |
| Playback.BeginScrubOf | Ebs-Video-Parca-Kesici-Zaman-Cizelgeli.py:281-290 | the transition of `begin_scrub`; `BeginScrubIdempotent` and `BeginScrubEffect` prove that it is idempotent and pauses everything while remembering `playing` |
| Playback.ScrubToOf | Ebs-Video-Parca-Kesici-Zaman-Cizelgeli.py:292-294 | the transition of `scrub_to`; `ScrubToKeepsAudio` proves that a drag never touches the audio |
| Playback.EndScrubOf | Ebs-Video-Parca-Kesici-Zaman-Cizelgeli.py:296-305 | the transition of `end_scrub`; `ScrubRestoresPlaying` and `EndScrubOutside` prove that it restores playback exactly when it was playing, and is a no-op outside a scrub |
| Playback.DeliverOf | Ebs-Video-Parca-Kesici-Zaman-Cizelgeli.py:347-357 | the transition of `_deliver_frame`; `DeliverFacts` proves that the mailbox is emptied, one delivery consumed and the position set only when a frame was waiting |
| Playback.ReaderStepOf | Ebs-Video-Parca-Kesici-Zaman-Cizelgeli.py:320-345 | the transition of one reader pass; `CloseReaderDeliverInv` proves that it keeps the invariant, and that its exit stops the thread and the audio |
| Playback.TogglePlayInv | Ebs-Video-Parca-Kesici-Zaman-Cizelgeli.py:266-278 | play/pause keeps the reader thread and the audio running only during playback |
| Playback.ScrubInv | Ebs-Video-Parca-Kesici-Zaman-Cizelgeli.py:281-304 | beginning and ending a scrub keep the same invariant |
| Playback.SeekInv | Ebs-Video-Parca-Kesici-Zaman-Cizelgeli.py:388-407 | seek and scrub-to keep the same invariant |
| Playback.CloseReaderDeliverInv | Ebs-Video-Parca-Kesici-Zaman-Cizelgeli.py:320-356 | close, a reader-loop pass and a frame delivery keep the same invariant; a reader pass that finds playback off, the capture closed or no frame stops the thread and the audio |
| Playback.BeginScrubIdempotent | Ebs-Video-Parca-Kesici-Zaman-Cizelgeli.py:281-283 | beginning a scrub twice is the same as once |
| Playback.BeginScrubEffect | Ebs-Video-Parca-Kesici-Zaman-Cizelgeli.py:281-290 | when already scrubbing nothing changes. Otherwise the prior `playing` is remembered, playback, audio and thread stop, and scrubbing is set, also when it was stopped |
| Playback.ScrubRestoresPlaying | Ebs-Video-Parca-Kesici-Zaman-Cizelgeli.py:281-304 | a scrub begun and ended restores playing/paused. Thread and audio run afterwards exactly when it was playing and ffplay can start |
| Playback.EndScrubOutside | Ebs-Video-Parca-Kesici-Zaman-Cizelgeli.py:296-298 | ending a scrub that is not in progress changes nothing |
| Playback.ScrubToKeepsAudio | Ebs-Video-Parca-Kesici-Zaman-Cizelgeli.py:292-294 | a seek during a scrub never touches the audio |
| Playback.SeekFacts | Ebs-Video-Parca-Kesici-Zaman-Cizelgeli.py:388-407 | without a capture a seek does nothing. Otherwise the target is clamped into [0, duration], a frame read goes to the mailbox with a delivery, and the audio changes only when playing and not scrubbing. In that case ffplay is restarted at the clamped target if it is installed, launches and a path is set; otherwise no ffplay runs afterwards |
| Playback.LoadFacts | Ebs-Video-Parca-Kesici-Zaman-Cizelgeli.py:238-253 | after a load the duration is at least 0.01 and the path is set. The frame rate is the reported one or 30, playback is off, no audio runs, and the first frame is pending at position 0 |
| Playback.LoadKeepsSilent | Ebs-Video-Parca-Kesici-Zaman-Cizelgeli.py:238-253 | the corrected load never leaves ffplay running, and keeps the invariant |
| Playback.LoadAsWritten | Ebs-Video-Parca-Kesici-Zaman-Cizelgeli.py:238-253 | `load` as written: close, then seek to the first frame, and only then clear `playing` |
| Playback.LoadAsWrittenLeavesAudio | Ebs-Video-Parca-Kesici-Zaman-Cizelgeli.py:249-252 | loading a video while playing leaves ffplay running at 0 s with playback off, which breaks the invariant |
| Playback.MailboxKeepsNewest | Ebs-Video-Parca-Kesici-Zaman-Cizelgeli.py:398-403 | two quick seeks keep only the newer frame in the mailbox. The first delivery shows it, and the second finds the mailbox empty |
| Playback.DeliverFacts | Ebs-Video-Parca-Kesici-Zaman-Cizelgeli.py:347-356 | a delivery empties the mailbox, and moves the position to its second only when a frame was pending |
| Playback.WarnOnce | Ebs-Video-Parca-Kesici-Zaman-Cizelgeli.py:413-421 | without ffplay, starting audio starts nothing, and the first time it only sets `warned` |
| Playback.VideoPlayer.constructor | Ebs-Video-Parca-Kesici-Zaman-Cizelgeli.py:195-235 | a new player has no capture, 30 fps, no playback, no scrub, no thread, no audio and an empty mailbox |
| Playback.VideoPlayer.StopAudio | Ebs-Video-Parca-Kesici-Zaman-Cizelgeli.py:433-439 | the new state is `StopAudioOf` of the old |
| Playback.VideoPlayer.StartAudio | Ebs-Video-Parca-Kesici-Zaman-Cizelgeli.py:413-431 | the new state is `StartAudioOf` of the old |
| Playback.VideoPlayer.RestartAudio | Ebs-Video-Parca-Kesici-Zaman-Cizelgeli.py:441-443 | the new state is `RestartAudioOf` of the old |
| Playback.VideoPlayer.StartThread | Ebs-Video-Parca-Kesici-Zaman-Cizelgeli.py:307-312 | the new state is `StartThreadOf` of the old; a running thread is kept |
| Playback.VideoPlayer.StopThread | Ebs-Video-Parca-Kesici-Zaman-Cizelgeli.py:314-318 | the new state is `StopThreadOf` of the old |
| Playback.VideoPlayer.Close | Ebs-Video-Parca-Kesici-Zaman-Cizelgeli.py:255-263 | the new state is `CloseOf` of the old |
| Playback.VideoPlayer.Seek | Ebs-Video-Parca-Kesici-Zaman-Cizelgeli.py:388-407 | the new state is `SeekOf` of the old |
| Playback.VideoPlayer.Load | Ebs-Video-Parca-Kesici-Zaman-Cizelgeli.py:238-253 | the new state is `LoadOf` of the old (the corrected order) |
| Playback.VideoPlayer.TogglePlay | Ebs-Video-Parca-Kesici-Zaman-Cizelgeli.py:266-278 | the new state is `TogglePlayOf` of the old |
| Playback.VideoPlayer.BeginScrub | Ebs-Video-Parca-Kesici-Zaman-Cizelgeli.py:281-290 | the new state is `BeginScrubOf` of the old |
| Playback.VideoPlayer.ScrubTo | Ebs-Video-Parca-Kesici-Zaman-Cizelgeli.py:292-294 | the new state is `ScrubToOf` of the old |
| Playback.VideoPlayer.EndScrub | Ebs-Video-Parca-Kesici-Zaman-Cizelgeli.py:296-304 | the new state is `EndScrubOf` of the old |
| Playback.VideoPlayer.DeliverFrame | Ebs-Video-Parca-Kesici-Zaman-Cizelgeli.py:347-356 | the frame shown is the one that was pending, and the new state is `DeliverOf` of the old |
| Playback.VideoPlayer.ReaderStep | Ebs-Video-Parca-Kesici-Zaman-Cizelgeli.py:320-345 | the new state is `ReaderStepOf` of the old: the loop goes on with a frame read, or ends and stops the audio |
| RangeTable.CheckRange | Ebs-Video-Parca-Kesici-Zaman-Cizelgeli.py:1075-1079 | a pair is accepted exactly when both texts parse and the end is after the start; an accepted pair keeps its texts and values and has a positive duration |
| RangeTable.Separate | Ebs-Video-Parca-Kesici-Zaman-Cizelgeli.py:1106-1112 | the separator choice; `ImportSeparated` and `DashBeforeCommaExample` prove that `-`, ` to `, `,` and two words are tried in that order |
| RangeTable.LineTokens | Ebs-Video-Parca-Kesici-Zaman-Cizelgeli.py:1106-1116 | the two tokens of a line, with the `..` fallback; its ensures bounds them by the line, and `ImportDotsExample` shows the fallback |
| RangeTable.ImportPair | Ebs-Video-Parca-Kesici-Zaman-Cizelgeli.py:1116-1123 | an import line's tokens are accepted exactly when `_add_range` would accept them |
| RangeTable.ImportLine | Ebs-Video-Parca-Kesici-Zaman-Cizelgeli.py:1104-1123 | blank and `#` lines give nothing; an accepted line gives a parsed range of positive length |
| RangeTable.ImportSeparated | Ebs-Video-Parca-Kesici-Zaman-Cizelgeli.py:1107-1115 | two times joined by `-`, ` to `, `,`, a space or `..` import as that pair |
| RangeTable.SeparatedRange | Ebs-Video-Parca-Kesici-Zaman-Cizelgeli.py:1104-1123 | such a line whose end is after its start imports as exactly that range |
| RangeTable.AcceptedPair | Ebs-Video-Parca-Kesici-Zaman-Cizelgeli.py:1117-1121 | two parsing texts with the end after the start give the range of those texts and values |
| RangeTable.ImportDashExample | Ebs-Video-Parca-Kesici-Zaman-Cizelgeli.py:1107 | "00:00-05:15" imports as 0 s to 315 s |
| RangeTable.ImportToExample | Ebs-Video-Parca-Kesici-Zaman-Cizelgeli.py:1108 | "0:00 to 5:15" imports as 0 s to 315 s |
| RangeTable.ImportCommaExample | Ebs-Video-Parca-Kesici-Zaman-Cizelgeli.py:1109 | "0:00,5:15" imports as 0 s to 315 s |
| RangeTable.ImportSpaceExample | Ebs-Video-Parca-Kesici-Zaman-Cizelgeli.py:1110-1112 | "0:00 5:15" imports as 0 s to 315 s |
| RangeTable.ImportDotsExample | Ebs-Video-Parca-Kesici-Zaman-Cizelgeli.py:1113-1114 | "0:00..5:15" imports as 0 s to 315 s |
| RangeTable.ImportBackwardsExample | Ebs-Video-Parca-Kesici-Zaman-Cizelgeli.py:1119 | "10,2" splits at the comma into 10 s and 2 s, and is skipped because the end is not after the start |
| RangeTable.DashBeforeCommaExample | Ebs-Video-Parca-Kesici-Zaman-Cizelgeli.py:1107 | "1,5-2,5" splits at the dash first, and the commas then act as decimal points: 1.5 s to 2.5 s |
| RangeTable.ImportSegments | Ebs-Video-Parca-Kesici-Zaman-Cizelgeli.py:1102-1123 | no more ranges are imported than there are lines |
| RangeTable.ImportedRanges | Ebs-Video-Parca-Kesici-Zaman-Cizelgeli.py:1102-1123 | every imported range parses, has a positive length and comes from some line of the file |
| RangeTable.ImportConcat | Ebs-Video-Parca-Kesici-Zaman-Cizelgeli.py:1103-1123 | the import of two files one after the other is the two imports in file order |
| RangeTable.HmsRow | Ebs-Video-Parca-Kesici-Zaman-Cizelgeli.py:1080 | the row written with the corrected formatter; `WrittenRowMatches` and `DeleteWrittenRow` prove that it reads back within half a second and is the row its selection deletes |
| RangeTable.AsWrittenRow | Ebs-Video-Parca-Kesici-Zaman-Cizelgeli.py:1080 | the program's own row; `AsWrittenRowIsHmsRow` proves that it is `HmsRow` without a carried field, and `CarriedRowKept` shows that a carried one is not deleted |
| RangeTable.RowOf | ebs-video-parca-kesici.py:431 | a new row has the status "Beklemede", and without rewriting it keeps the typed texts |
| RangeTable.RowOfParses | Ebs-Video-Parca-Kesici-Zaman-Cizelgeli.py:1080 | a row written for a parsed range reads back as that range, with its times rounded to the millisecond when they were rewritten by the corrected formatter |
| RangeTable.ParseRow | Ebs-Video-Parca-Kesici-Zaman-Cizelgeli.py:1130-1132 | a row parses exactly when both its texts do, and the segment keeps the texts |
| RangeTable.FirstsOk | Ebs-Video-Parca-Kesici-Zaman-Cizelgeli.py:1129-1132 | collecting succeeds exactly when every row parses, and then gives one segment per row, in order |
| RangeTable.FirstsErr | Ebs-Video-Parca-Kesici-Zaman-Cizelgeli.py:1131 | the first row that fails to parse decides the error |
| RangeTable.Collect | Ebs-Video-Parca-Kesici-Zaman-Cizelgeli.py:1127-1134 | `_collect_segments`; `CollectRows` proves that it succeeds exactly when every row parses and then gives each row's segment in table order |
| RangeTable.CollectRows | Ebs-Video-Parca-Kesici-Zaman-Cizelgeli.py:1127-1134 | `_collect_segments` succeeds exactly when every row parses, and gives each row's segment in table order |
| RangeTable.CollectSnoc | Ebs-Video-Parca-Kesici-Zaman-Cizelgeli.py:1132 | a parsing row appended to the table appends its segment |
| RangeTable.WrittenParse | Ebs-Video-Parca-Kesici-Zaman-Cizelgeli.py:1080 | rows written for parsed ranges can always be collected |
| RangeTable.ImportKeepsParsing | Ebs-Video-Parca-Kesici-Zaman-Cizelgeli.py:1120 | importing keeps a collectable table collectable |
| RangeTable.CollectDelete | Ebs-Video-Parca-Kesici-Zaman-Cizelgeli.py:1044 | deleting a row keeps a collectable table collectable |
| RangeTable.CollectIgnoresStatus | Ebs-Video-Parca-Kesici-Zaman-Cizelgeli.py:1130 | the status column does not affect the collected segments |
| RangeTable.CollectWritten | ebs-video-parca-kesici.py:499-507 | rows that keep the typed texts collect back to exactly their ranges |
| RangeTable.ImportThenCollect | ebs-video-parca-kesici.py:492 | in the original tool, collecting the imported rows gives the imported ranges |
| RangeTable.WithStatus | Ebs-Video-Parca-Kesici-Zaman-Cizelgeli.py:1216-1222 | only the status of the row at an index inside the table changes; an index outside changes nothing |
| RangeTable.StatusKeepsSegments | Ebs-Video-Parca-Kesici-Zaman-Cizelgeli.py:1216-1222 | setting a status does not change the collected segments |
| RangeTable.FirstNearSpec | Ebs-Video-Parca-Kesici-Zaman-Cizelgeli.py:1037-1045 | the deleted row is the first whose times both lie within 0.5 s of the selection |
| RangeTable.FirstNearIs | Ebs-Video-Parca-Kesici-Zaman-Cizelgeli.py:1037-1045 | a row within 0.5 s is the one deleted exactly when no earlier row is |
| RangeTable.DeleteMatch | Ebs-Video-Parca-Kesici-Zaman-Cizelgeli.py:1036-1046 | `_timeline_delete_selection`; `DeleteMatchKeeps` and `FirstNearIs` prove that it removes the first matching row and nothing else |
| RangeTable.DeleteMatchKeeps | Ebs-Video-Parca-Kesici-Zaman-Cizelgeli.py:1036-1046 | either no row matches and the table is unchanged, or exactly one matching row is removed and the rest keep their order |
| RangeTable.DeleteWrittenRow | Ebs-Video-Parca-Kesici-Zaman-Cizelgeli.py:1030-1046 | the row a timeline selection wrote with the corrected formatter is the one its deletion removes, when no earlier row matches |
| RangeTable.AsWrittenRowIsHmsRow | Ebs-Video-Parca-Kesici-Zaman-Cizelgeli.py:1080 | when neither millisecond field carries, the row the program writes is the model's row and reads back as the times rounded to the millisecond |
| RangeTable.DeleteAsWrittenRow | Ebs-Video-Parca-Kesici-Zaman-Cizelgeli.py:1030-1046 | the row the program writes for a selection without a carried field is the one its deletion removes, when no earlier row matches |
| RangeTable.CarriedRowKept | Ebs-Video-Parca-Kesici-Zaman-Cizelgeli.py:1036-1046 | a selection from 1.9996 s to 5 s: the program's row reads back as 1.1 s, so deleting the selection leaves the row in the table |
| RangeTable.DeleteKeepsParsing | Ebs-Video-Parca-Kesici-Zaman-Cizelgeli.py:1036-1046 | deleting a selection keeps a collectable table collectable |
| RangeTable.ParseAt | Ebs-Video-Parca-Kesici-Zaman-Cizelgeli.py:1131 | parsing one row gives that row's result |
| RangeTable.Table.constructor | Ebs-Video-Parca-Kesici-Zaman-Cizelgeli.py:922 | a new table has no rows |
| RangeTable.Table.AddRange | Ebs-Video-Parca-Kesici-Zaman-Cizelgeli.py:1073-1080 | the stripped texts are checked; an accepted pair adds one row at the end, a refused one changes nothing |
| RangeTable.Table.Import | Ebs-Video-Parca-Kesici-Zaman-Cizelgeli.py:1101-1125 | the accepted lines are appended in file order, and `added` counts them |
| RangeTable.Table.CollectSegments | Ebs-Video-Parca-Kesici-Zaman-Cizelgeli.py:1127-1134 | the result is the table's segments in order, or the first parse error |
| RangeTable.Table.SetRowStatus | Ebs-Video-Parca-Kesici-Zaman-Cizelgeli.py:1216-1222 | only the status of the indexed row changes |
| RangeTable.Table.DeleteSelection | Ebs-Video-Parca-Kesici-Zaman-Cizelgeli.py:1036-1046 | the first row within 0.5 s of the deleted selection is removed, and only that row |
| RangeTable.AddRangeWithTimeline | Ebs-Video-Parca-Kesici-Zaman-Cizelgeli.py:1073-1081 | an accepted range adds a row and, when a video is loaded, a timeline interval with the exact times; the table stays collectable, and the timeline's duration, width, selection and playhead are unchanged |

## Left out

- Widgets and drawing: Tk/customtkinter widgets, the canvas drawing (`_draw_base`, `_draw_ticks`, `_raise_overlays`, `_show_frame`, `_clear_canvas`), message boxes and file dialogs. Rendering is not state logic. A refused `_add_range` returns an error value where the program shows a message box.
- OpenCV and PIL: the `VideoCapture` reads and seeks, the double `set(POS_MSEC)`, and the PIL conversion are foreign calls. The capture is a flag, a reported frame rate and an abstract frame given as a parameter.
- Threads and timing: threads, `RLock`, `Event`, `join(timeout)` and the wall-clock pacing of `_reader_loop`. The reader loop is one pass per `ReaderStep` call. Deliveries are a queue drained in order. A `stop()` running alongside `run` is the index of the first check that sees it.
- Processes and files: `subprocess`, `probe_duration`, `shutil.which`, the ffplay `Popen` arguments and `poll()`. Process results are `Outcome` values and `Env` flags. A running ffplay is the start second it was launched at.
- Python number parsing and floats: `float()`/`int()` would also accept signs, exponents, `inf`/`nan`, underscores and inner spaces. The model's grammar is ASCII digits with an optional fraction. Times are exact reals, so float rounding is not modelled.
- `CutterWorker.run`: the `fatal` branch is not modelled. With exact real times nothing inside the `try` can raise, since only an infinite or NaN float makes `seconds_to_hms` fail.
- Log rendering: `shlex.quote` and the join of the command log line are not modelled. A log message carries the command as a list.
- Paths: `os.path.splitext`/`basename` give the job's base name, which is a parameter. `os.path.join` is a plain `/` join.
- `_poll_queue`: its 100 ms rescheduling and message dispatch to the table and log are not modelled. Status updates are modelled by `SetRowStatus`.
- `on_seek`: the callback of `_deliver_frame` and `update_time_label` show the position and change no player state.
- Mouse and keyboard handlers: `_on_down`, `_on_drag`, `_on_up`, `_finalize_temp`, `_find_rect_at`, `_on_seek_click`, `_on_seek_double` and the seek bar's handlers turn mouse positions into the calls the model covers: `SelectRect`, `AddSegment`, `SetPlayhead` and the x→second conversion. The `_timeline_new_selection` table insert is `RowOf` with rewritten texts. Its follow-up seek and playhead calls are the modelled `Seek` and `SetPlayhead`.
- SeekBar: `SeekBar.set_playhead`/`_redraw` clamp and convert exactly like the timeline's. The seek bar has no register, so it has no class of its own.
- Tk canvas ids: they are a counter `nextId` that only grows. The ids of the base drawing are not tracked.
- Table edits not modelled: `_remove_selected`, `_clear_all` and `_rebuild_timeline_from_table` are not modelled. The table side of a deletion is `CollectDelete`.
- `emit`: the parameter of `seek` is not modelled, because every `emit` path leads to the left-out `on_seek` callback.
- Reading text files: `_import_from_text` receives the file's lines as a sequence.
- Cutter.CutterWorker.Cut: its `-ss` and `-t` texts come from the corrected `SecondsToHms`, where `run` calls `seconds_to_hms` as written. The texts differ only when a millisecond field rounds to 1000 (`CommandSeconds`, `SecondsToHmsAgreement`). The program then passes a `.1000` text that ffmpeg reads 0.9 s early.
- Cutter.SegmentMessages: the same substitution. The command in a segment's log line is built from the corrected texts.
- Cutter.RunMessages: it is built from `SegmentMessages`, so its command lines carry the corrected time texts too.
- Cutter.CutterWorker.Loop: it appends the commands `Cut` builds, so it inherits the corrected time texts.
- Cutter.CutterWorker.Run: its message sequence is `RunMessages` over the corrected texts. A run differs from the program's only in the command lines of segments whose start or duration carries.
- RangeTable.RowOf: with rewritten texts it writes the corrected `SecondsToHms` texts. The program's row is `AsWrittenRow`, which is the same row unless a field carries (`AsWrittenRowIsHmsRow`).
- RangeTable.RowOfParses: it is stated for the corrected texts. The program's carried row reads back 0.9 s early (`SecondsToHmsAsWrittenRoundTrip`).
- RangeTable.DeleteWrittenRow: it holds for the corrected row. For the program's row it holds without a carried field (`DeleteAsWrittenRow`) and fails with one (`CarriedRowKept`).
- RangeTable.Table.AddRange: with rewritten texts the stored row is `RowOf`'s corrected row, not the `seconds_to_hms` text as written.
- RangeTable.Table.Import: in the timeline program the appended rows carry `RowOf`'s corrected texts.
- RangeTable.AddRangeWithTimeline: the table row uses `RowOf`'s corrected texts. The timeline interval keeps the exact times.
- Text.Strip, Text.Words, Text.Lower: whitespace and case are ASCII only. Python's `strip()` and `split()` also remove Unicode whitespace such as U+00A0, and `lower()` lowers non-ASCII letters. A time typed with a non-breaking space parses in the program and fails in the model. The modelled lowering leaves non-ASCII letters unchanged.
- Timeline.XToSec: it requires a bar of non-zero length (`width - Padding != Padding`). At a canvas width of twice the padding `_x_to_sec` divides by zero and raises ZeroDivisionError; the model does not cover that error.
- Timeline.SecToX: it requires a non-zero duration. The timeline program calls it only once a video has set a duration of at least 0.01.
- RangeTable.Table.DeleteSelection: its ensures states the new rows only. That deletion keeps the table collectable is the separate lemma `DeleteKeepsParsing`.
- Playback.VideoPlayer.DeliverFrame: it requires a scheduled delivery, since `_deliver_frame` only ever runs from an `after` call.

## Findings

| source | as written | input that shows it | evidently intended | confidence | as-written member | corrected member |
|---|---|---|---|---|---|---|
| Ebs-Video-Parca-Kesici-Zaman-Cizelgeli.py:90 | the millisecond field is rounded separately from the whole seconds, so a fraction that rounds to 1000 is written as `.1000` without carrying | `seconds_to_hms(1.9996)` gives `00:00:01.1000`, which reads back as 1.1 s | `00:00:02.000`, the input rounded to the millisecond | not executed | TimeCodec.SecondsToHmsAsWritten, TimeCodec.SecondsToHmsCarryLost, RangeTable.CarriedRowKept | TimeCodec.SecondsToHms, TimeCodec.SecondsToHmsRoundTrip, RangeTable.DeleteWrittenRow |
| Ebs-Video-Parca-Kesici-Zaman-Cizelgeli.py:249-251 | `load` seeks to the first frame before it clears `playing` | loading a video while another is playing: the seek sees `playing` and starts ffplay at 0 s, then `playing` is cleared and the audio of the new video plays while the player shows "paused" | a newly loaded video starts paused and silent | not executed | Playback.LoadAsWritten, Playback.LoadAsWrittenLeavesAudio | Playback.VideoPlayer.Load, Playback.LoadKeepsSilent |
| Ebs-Video-Parca-Kesici-Zaman-Cizelgeli.py:736 | `_redraw` gives every rectangle a new id but keeps `selected_rect`, and `_on_delete` then calls `rects.remove` on the stale id | add a range, select it, resize the window or change the duration (both redraw), press Delete: `list.remove` raises ValueError | deleting a stale selection does nothing, or the selection follows its rectangle | not executed | Timeline.DeleteAsWritten, Timeline.StaleDeleteExample | Timeline.Timeline.OnDelete, Timeline.DeleteIntervals |

## Notes on the code's behaviour

- `begin_scrub` while stopped still sets `_scrubbing`. `end_scrub` then only clears it (`BeginScrubEffect`, `ScrubRestoresPlaying`).
- An import line `10,2` is split at the comma into 10 s and 2 s and then skipped, because the end is not after the start (`ImportBackwardsExample`).
- A segment from 10 s to 2 s has duration 0. It gets the single status `HATA: süre <= 0`, no command and no progress value (`ZeroLengthSegment`, `ExpectedStatusesShape`, `RunProgress`). The run still ends with `done`.
- The timeline program writes accepted ranges into the table as `seconds_to_hms` texts. The original tool keeps the typed texts. `Table.hmsTexts` selects the behaviour. With rewritten texts the model writes the corrected `SecondsToHms` texts, which collect to the times rounded to the millisecond (`RowOfParses`). The program's own texts collect to the same times unless a millisecond field carries (`AsWrittenRowIsHmsRow`). A carried field reads back 0.9 s early: 1.9996 s collects as 1.1 s.
