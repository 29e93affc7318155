/**
 * What the queue traffic of `CutterWorker.run` promises: its frame
 * (`overall` first, exactly one `done` last, the stop note just before it),
 * the statuses each segment receives, and the progress values.
 */
module RunProperties {
  import opened Segments
  import opened Cutter
  import opened Seqs

  /** The statuses that the messages report for segment i, in order. */
  function StatusesOf(msgs: seq<Message>, i: nat): seq<Status> {
    if msgs == [] then []
    else (if msgs[0].SegmentStatus? && msgs[0].index == i then [msgs[0].status] else []) + StatusesOf(msgs[1..], i)
  }

  /** The progress fractions among the messages, in order. */
  function ProgressOf(msgs: seq<Message>): seq<real> {
    if msgs == [] then []
    else (if msgs[0].Progress? then [msgs[0].fraction] else []) + ProgressOf(msgs[1..])
  }

  /** Messages that may only appear in the frame of a run, never for a segment. */
  predicate IsFrame(m: Message) {
    m.Overall? || m.Done? || m == Log(StopLine)
  }

  /** No frame message among msgs. */
  predicate NoFrame(msgs: seq<Message>) {
    msgs == [] || (!IsFrame(msgs[0]) && NoFrame(msgs[1..]))
  }

  lemma {:induction false} NoFrameAt(msgs: seq<Message>, k: nat)
    requires NoFrame(msgs) && k < |msgs|
    ensures !IsFrame(msgs[k])
  {
    if k > 0 {
      NoFrameAt(msgs[1..], k - 1);
    }
  }

  /**
   * The statuses segment i receives when it is processed: only the zero-length
   * error, or the running mark followed by the one status its ffmpeg run ends with.
   */
  function ExpectedStatuses(seg: Segment, o: Outcome): seq<Status> {
    if Duration(seg) <= 0.0 then [NotPositive] else [Running, FinalStatus(o)]
  }

  /**
   * A processed segment ends with exactly one final status, after at most
   * the running mark; the final one is a failure unless ffmpeg exited with 0.
   */
  lemma ExpectedStatusesShape(seg: Segment, o: Outcome)
    ensures var st := ExpectedStatuses(seg, o);
      |st| >= 1 && !st[|st| - 1].Running? && (forall k | 0 <= k < |st| - 1 :: st[k] == Running)
      && (st[|st| - 1].IsFailure() <==> !(Duration(seg) > 0.0 && o.Exited? && o.code == 0))
      && (|st| == 1 <==> Duration(seg) <= 0.0)
  {
  }

  /** The progress values of the first n segments: n-th of total for each one that reaches ffmpeg. */
  function ExpectedProgress(segs: seq<Segment>, n: nat): seq<real>
    requires n <= |segs|
  {
    if n == 0 then []
    else ExpectedProgress(segs, n - 1) + (if Duration(segs[n - 1]) > 0.0 then [n as real / |segs| as real] else [])
  }

  lemma {:induction false} StatusesConcat(a: seq<Message>, b: seq<Message>, i: nat)
    ensures StatusesOf(a + b, i) == StatusesOf(a, i) + StatusesOf(b, i)
  {
    if a == [] {
      assert a + b == b;
    } else {
      var h := if a[0].SegmentStatus? && a[0].index == i then [a[0].status] else [];
      assert (a + b)[0] == a[0] && (a + b)[1..] == a[1..] + b;
      assert StatusesOf(a + b, i) == h + StatusesOf(a[1..] + b, i);
      StatusesConcat(a[1..], b, i);
      Assoc(h, StatusesOf(a[1..], i), StatusesOf(b, i));
    }
  }

  lemma {:induction false} ProgressConcat(a: seq<Message>, b: seq<Message>)
    ensures ProgressOf(a + b) == ProgressOf(a) + ProgressOf(b)
  {
    if a == [] {
      assert a + b == b;
    } else {
      var h := if a[0].Progress? then [a[0].fraction] else [];
      assert (a + b)[0] == a[0] && (a + b)[1..] == a[1..] + b;
      assert ProgressOf(a + b) == h + ProgressOf(a[1..] + b);
      ProgressConcat(a[1..], b);
      Assoc(h, ProgressOf(a[1..]), ProgressOf(b));
    }
  }

  lemma {:induction false} NoFrameConcat(a: seq<Message>, b: seq<Message>)
    requires NoFrame(a) && NoFrame(b)
    ensures NoFrame(a + b)
  {
    if a == [] {
      assert a + b == b;
    } else {
      assert (a + b)[1..] == a[1..] + b;
      NoFrameConcat(a[1..], b);
    }
  }

  lemma OneMessage(m: Message, i: nat)
    ensures StatusesOf([m], i) == if m.SegmentStatus? && m.index == i then [m.status] else []
    ensures ProgressOf([m]) == if m.Progress? then [m.fraction] else []
    ensures NoFrame([m]) <==> !IsFrame(m)
  {
    assert [m][1..] == [];
  }

  /** Facts about `a + b` from facts about each part. */
  lemma Glue(a: seq<Message>, b: seq<Message>, i: nat)
    requires NoFrame(a) && NoFrame(b)
    ensures StatusesOf(a + b, i) == StatusesOf(a, i) + StatusesOf(b, i)
    ensures ProgressOf(a + b) == ProgressOf(a) + ProgressOf(b)
    ensures NoFrame(a + b)
  {
    StatusesConcat(a, b, i);
    ProgressConcat(a, b);
    NoFrameConcat(a, b);
  }

  lemma OutcomeFacts(i: nat, o: Outcome, j: nat)
    ensures StatusesOf(OutcomeMessages(i, o), j) == if i == j then [FinalStatus(o)] else []
    ensures ProgressOf(OutcomeMessages(i, o)) == []
    ensures NoFrame(OutcomeMessages(i, o))
  {
    var first := SegmentStatus(i, FinalStatus(o));
    OneMessage(first, j);
    if o.Exited? && o.code != 0 {
      var line := Log(FailureOutput(ErrorTail(o.output)));
      OneMessage(line, j);
      Glue([first], [line], j);
      assert OutcomeMessages(i, o) == [first] + [line];
    } else {
      assert OutcomeMessages(i, o) == [first];
    }
  }

  lemma Three(a: Message, b: Message, c: Message, i: nat)
    requires !IsFrame(a) && !IsFrame(b) && !IsFrame(c)
    ensures StatusesOf([a, b, c], i) == StatusesOf([a], i) + StatusesOf([b], i) + StatusesOf([c], i)
    ensures ProgressOf([a, b, c]) == ProgressOf([a]) + ProgressOf([b]) + ProgressOf([c])
    ensures NoFrame([a, b, c])
  {
    assert [a, b, c] == [a] + ([b] + [c]);
    StatusesConcat([a], [b] + [c], i);
    StatusesConcat([b], [c], i);
    Assoc(StatusesOf([a], i), StatusesOf([b], i), StatusesOf([c], i));
    ProgressConcat([a], [b] + [c]);
    ProgressConcat([b], [c]);
    Assoc(ProgressOf([a]), ProgressOf([b]), ProgressOf([c]));
    NoFrameOne(a);
    NoFrameOne(b);
    NoFrameOne(c);
    NoFrameConcat([b], [c]);
    NoFrameConcat([a], [b] + [c]);
  }

  lemma NoFrameOne(m: Message)
    requires !IsFrame(m)
    ensures NoFrame([m])
  {
    assert [m][1..] == [];
  }

  /** The statuses, progress and frame messages of one processed iteration. */
  lemma CutFacts(i: nat, total: nat, name: string, cmd: seq<string>, o: Outcome, j: nat)
    requires total > 0
    ensures StatusesOf(CutMessages(i, total, name, cmd, o), j) == if i == j then [Running, FinalStatus(o)] else []
    ensures ProgressOf(CutMessages(i, total, name, cmd, o)) == [(i + 1) as real / total as real]
    ensures NoFrame(CutMessages(i, total, name, cmd, o))
  {
    var a, b, c := SegmentStatus(i, Running), Log(OutputLine(i + 1, total, name)), Log(CommandLine(cmd));
    var head := [a, b, c];
    var mid := OutcomeMessages(i, o);
    var last := Progress((i + 1) as real / total as real);
    OneMessage(a, j);
    OneMessage(b, j);
    OneMessage(c, j);
    OneMessage(last, j);
    Three(a, b, c, j);
    OutcomeFacts(i, o, j);
    Glue(head, mid, j);
    Glue(head + mid, [last], j);
  }

  /** What the messages of one iteration report besides statuses: no frame message, and the progress of segment k when it has a length. */
  predicate Reported(chunk: seq<Message>, segs: seq<Segment>, k: nat)
    requires k < |segs|
  {
    NoFrame(chunk) && ProgressOf(chunk) == if Duration(segs[k]) > 0.0 then [(k + 1) as real / |segs| as real] else []
  }

  lemma SegmentFacts(job: Job, segs: seq<Segment>, i: nat, o: Outcome, j: nat)
    requires i < |segs|
    ensures StatusesOf(SegmentMessages(job, segs, i, o), j) == if j == i then ExpectedStatuses(segs[i], o) else []
    ensures Reported(SegmentMessages(job, segs, i, o), segs, i)
  {
    if Duration(segs[i]) > 0.0 {
      var name := OutputName(job.baseName, i + 1, segs[i]);
      var cmd := Command(job, TimeCodec.SecondsToHms(segs[i].startSec, true),
                         TimeCodec.SecondsToHms(Duration(segs[i]), true), JoinPath(job.outDir, name));
      CutFacts(i, |segs|, name, cmd, o, j);
    } else {
      OneMessage(SegmentStatus(i, NotPositive), j);
    }
  }

  /** The first n parts, one after the other. */
  function Joined<T>(parts: seq<seq<T>>, n: nat): seq<T>
    requires n <= |parts|
  {
    if n == 0 then [] else Joined(parts, n - 1) + parts[n - 1]
  }

  /** Each chunk's statuses of segment j. */
  function StatusParts(chunks: seq<seq<Message>>, j: nat): (parts: seq<seq<Status>>)
    ensures |parts| == |chunks|
  {
    seq(|chunks|, k requires 0 <= k < |chunks| => StatusesOf(chunks[k], j))
  }

  /** Each chunk's progress values. */
  function ProgressParts(chunks: seq<seq<Message>>): (parts: seq<seq<real>>)
    ensures |parts| == |chunks|
  {
    seq(|chunks|, k requires 0 <= k < |chunks| => ProgressOf(chunks[k]))
  }

  lemma {:induction false} StatusesJoined(chunks: seq<seq<Message>>, n: nat, j: nat)
    requires n <= |chunks|
    ensures StatusesOf(Concat(chunks, n), j) == Joined(StatusParts(chunks, j), n)
  {
    if n > 0 {
      StatusesJoined(chunks, n - 1, j);
      StatusesConcat(Concat(chunks, n - 1), chunks[n - 1], j);
    }
  }

  lemma {:induction false} ProgressJoined(chunks: seq<seq<Message>>, n: nat)
    requires n <= |chunks|
    ensures ProgressOf(Concat(chunks, n)) == Joined(ProgressParts(chunks), n)
  {
    if n > 0 {
      ProgressJoined(chunks, n - 1);
      ProgressConcat(Concat(chunks, n - 1), chunks[n - 1]);
    }
  }

  /** Parts that are empty except at j, where they hold e, join to e once j is among them. */
  lemma {:induction false} JoinedOne<T>(parts: seq<seq<T>>, e: seq<T>, n: nat, j: nat)
    requires n <= |parts|
    requires forall k | 0 <= k < |parts| :: parts[k] == if j == k then e else []
    ensures Joined(parts, n) == if j < n then e else []
  {
    if n > 0 {
      JoinedOne(parts, e, n - 1, j);
      var before, here := Joined(parts, n - 1), parts[n - 1];
      assert here == if j == n - 1 then e else [];
      if j < n - 1 {
        assert before + here == e + [];
      } else if j == n - 1 {
        assert before + here == [] + e;
      } else {
        assert before + here == [] + [];
      }
    }
  }

  /** Parts that hold each segment's progress value when it has a length join to the expected progress. */
  lemma {:induction false} JoinedProgress(parts: seq<seq<real>>, segs: seq<Segment>, n: nat)
    requires |parts| == |segs| && n <= |segs|
    requires forall k | 0 <= k < |parts| :: parts[k] == if Duration(segs[k]) > 0.0 then [(k + 1) as real / |segs| as real] else []
    ensures Joined(parts, n) == ExpectedProgress(segs, n)
  {
    if n > 0 {
      JoinedProgress(parts, segs, n - 1);
      assert parts[n - 1] == if Duration(segs[n - 1]) > 0.0 then [((n - 1) + 1) as real / |segs| as real] else [];
      ProgressStep(segs, n);
    }
  }

  /** Over the first n of any chunks that report their own segment: the statuses of segment j. */
  lemma ConcatStatuses(chunks: seq<seq<Message>>, segs: seq<Segment>, outcomes: seq<Outcome>, n: nat, j: nat)
    requires |chunks| == |segs| == |outcomes| && n <= |segs|
    requires forall k: nat, i: nat | k < |chunks| ::
               StatusesOf(chunks[k], i) == if i == k then ExpectedStatuses(segs[k], outcomes[k]) else []
    ensures StatusesOf(Concat(chunks, n), j) == if j < n then ExpectedStatuses(segs[j], outcomes[j]) else []
  {
    StatusesJoined(chunks, n, j);
    var e := if j < |segs| then ExpectedStatuses(segs[j], outcomes[j]) else [];
    JoinedOne(StatusParts(chunks, j), e, n, j);
  }

  /** The same for the progress values. */
  lemma ConcatProgress(chunks: seq<seq<Message>>, segs: seq<Segment>, outcomes: seq<Outcome>, n: nat)
    requires |chunks| == |segs| == |outcomes| && n <= |segs|
    requires forall k | 0 <= k < |chunks| :: Reported(chunks[k], segs, k)
    ensures ProgressOf(Concat(chunks, n)) == ExpectedProgress(segs, n)
  {
    ProgressJoined(chunks, n);
    forall k | 0 <= k < |chunks|
      ensures ProgressParts(chunks)[k] == if Duration(segs[k]) > 0.0 then [(k + 1) as real / |segs| as real] else []
    {
      assert Reported(chunks[k], segs, k);
    }
    JoinedProgress(ProgressParts(chunks), segs, n);
  }

  lemma ProgressStep(segs: seq<Segment>, n: nat)
    requires 0 < n <= |segs|
    ensures ExpectedProgress(segs, n) == ExpectedProgress(segs, n - 1)
      + if Duration(segs[n - 1]) > 0.0 then [((n - 1) + 1) as real / |segs| as real] else []
  {
    assert (n - 1) + 1 == n;
  }

  /** The same for the absence of frame messages. */
  lemma {:induction false} ConcatNoFrame(chunks: seq<seq<Message>>, segs: seq<Segment>, outcomes: seq<Outcome>, n: nat)
    requires |chunks| == |segs| == |outcomes| && n <= |segs|
    requires forall k | 0 <= k < |chunks| :: Reported(chunks[k], segs, k)
    ensures NoFrame(Concat(chunks, n))
  {
    if n > 0 {
      ConcatNoFrame(chunks, segs, outcomes, n - 1);
      assert Reported(chunks[n - 1], segs, n - 1);
      NoFrameConcat(Concat(chunks, n - 1), chunks[n - 1]);
    }
  }

  /** Every chunk of a run reports its own segment. */
  lemma ChunksReported(job: Job, segs: seq<Segment>, outcomes: seq<Outcome>)
    requires |segs| == |outcomes|
    ensures forall k: nat, i: nat | k < |segs| ::
              StatusesOf(Chunks(job, segs, outcomes)[k], i) == if i == k then ExpectedStatuses(segs[k], outcomes[k]) else []
    ensures forall k | 0 <= k < |segs| :: Reported(Chunks(job, segs, outcomes)[k], segs, k)
  {
    forall k: nat, i: nat | k < |segs|
      ensures StatusesOf(Chunks(job, segs, outcomes)[k], i) == if i == k then ExpectedStatuses(segs[k], outcomes[k]) else []
    {
      SegmentFacts(job, segs, k, outcomes[k], i);
    }
    forall k | 0 <= k < |segs|
      ensures Reported(Chunks(job, segs, outcomes)[k], segs, k)
    {
      SegmentFacts(job, segs, k, outcomes[k], 0);
    }
  }

  /** Over the first n iterations of a run: each processed segment's statuses, all progress values, no frame message. */
  lemma ConcatFacts(job: Job, segs: seq<Segment>, outcomes: seq<Outcome>, n: nat, j: nat)
    requires |segs| == |outcomes| && n <= |segs|
    ensures StatusesOf(Concat(Chunks(job, segs, outcomes), n), j) ==
      if j < n then ExpectedStatuses(segs[j], outcomes[j]) else []
    ensures ProgressOf(Concat(Chunks(job, segs, outcomes), n)) == ExpectedProgress(segs, n)
    ensures NoFrame(Concat(Chunks(job, segs, outcomes), n))
  {
    var chunks := Chunks(job, segs, outcomes);
    ChunksReported(job, segs, outcomes);
    ConcatStatuses(chunks, segs, outcomes, n, j);
    ConcatProgress(chunks, segs, outcomes, n);
    ConcatNoFrame(chunks, segs, outcomes, n);
  }

  /** Shape of `overall`, a frame-free body, an optional stop note and `done`. */
  lemma FrameShape(total: nat, body: seq<Message>, stopped: bool)
    requires NoFrame(body)
    ensures var msgs := [Overall(total)] + body + (if stopped then [Log(StopLine)] else []) + [Done];
      |msgs| >= 2 && msgs[0] == Overall(total) && msgs[|msgs| - 1] == Done
      && (forall k | 0 <= k < |msgs| - 1 :: msgs[k] != Done)
      && (forall k | 0 < k < |msgs| :: !msgs[k].Overall?)
      && (stopped <==> msgs[|msgs| - 2] == Log(StopLine))
      && (forall k | 0 <= k < |msgs| - 2 :: msgs[k] != Log(StopLine))
  {
    var tail := if stopped then [Log(StopLine)] else [];
    var msgs := [Overall(total)] + body + tail + [Done];
    assert msgs == [Overall(total)] + (body + tail + [Done]);
    forall k | 0 < k < 1 + |body|
      ensures msgs[k] == body[k - 1] && !IsFrame(msgs[k])
    {
      NoFrameAt(body, k - 1);
    }
    if !stopped {
      if body == [] {
        assert msgs[|msgs| - 2] == Overall(total);
      } else {
        assert msgs[|msgs| - 2] == body[|body| - 1];
      }
    }
  }

  /** Statuses and progress of `overall`, a body, an optional stop note and `done` are those of the body. */
  lemma FrameCounts(total: nat, body: seq<Message>, stopped: bool, j: nat)
    ensures var msgs := [Overall(total)] + body + (if stopped then [Log(StopLine)] else []) + [Done];
      StatusesOf(msgs, j) == StatusesOf(body, j) && ProgressOf(msgs) == ProgressOf(body)
  {
    var tail := if stopped then [Log(StopLine)] else [];
    OneMessage(Overall(total), j);
    OneMessage(Log(StopLine), j);
    OneMessage(Done, j);
    assert StatusesOf(tail, j) == [] && ProgressOf(tail) == [];
    StatusesConcat([Overall(total)], body, j);
    StatusesConcat([Overall(total)] + body, tail, j);
    StatusesConcat([Overall(total)] + body + tail, [Done], j);
    ProgressConcat([Overall(total)], body);
    ProgressConcat([Overall(total)] + body, tail);
    ProgressConcat([Overall(total)] + body + tail, [Done]);
  }

  /**
   * The frame of a run: `overall` first, `done` last and nowhere else, the
   * stop note just before `done` exactly when the stop was seen, and
   * nothing but `overall` and `done` for an empty segment list.
   */
  lemma RunShape(job: Job, segs: seq<Segment>, outcomes: seq<Outcome>, stop: nat)
    requires |segs| == |outcomes|
    ensures var msgs := RunMessages(job, segs, outcomes, stop);
      |msgs| >= 2 && msgs[0] == Overall(|segs|) && msgs[|msgs| - 1] == Done
      && (forall k | 0 <= k < |msgs| - 1 :: msgs[k] != Done)
      && (forall k | 0 < k < |msgs| :: !msgs[k].Overall?)
      && (stop < |segs| <==> msgs[|msgs| - 2] == Log(StopLine))
      && (forall k | 0 <= k < |msgs| - 2 :: msgs[k] != Log(StopLine))
      && (segs == [] ==> msgs == [Overall(0), Done])
  {
    ConcatFacts(job, segs, outcomes, Processed(segs, stop), 0);
    FrameShape(|segs|, Concat(Chunks(job, segs, outcomes), Processed(segs, stop)), stop < |segs|);
  }

  /**
   * The statuses segment j receives over a whole run: the expected ones when
   * it is reached before the stop, none after the stop is seen.
   */
  lemma RunStatuses(job: Job, segs: seq<Segment>, outcomes: seq<Outcome>, stop: nat, j: nat)
    requires |segs| == |outcomes|
    ensures StatusesOf(RunMessages(job, segs, outcomes, stop), j) ==
      if j < Processed(segs, stop) then ExpectedStatuses(segs[j], outcomes[j]) else []
  {
    ConcatFacts(job, segs, outcomes, Processed(segs, stop), j);
    FrameCounts(|segs|, Concat(Chunks(job, segs, outcomes), Processed(segs, stop)), stop < |segs|, j);
  }

  /** The progress values of a run are those of the segments reached before the stop that have a length. */
  lemma RunProgress(job: Job, segs: seq<Segment>, outcomes: seq<Outcome>, stop: nat)
    requires |segs| == |outcomes|
    ensures ProgressOf(RunMessages(job, segs, outcomes, stop)) == ExpectedProgress(segs, Processed(segs, stop))
  {
    ConcatFacts(job, segs, outcomes, Processed(segs, stop), 0);
    FrameCounts(|segs|, Concat(Chunks(job, segs, outcomes), Processed(segs, stop)), stop < |segs|, 0);
  }

  lemma DivideLess(a: real, b: real, t: real)
    requires a < b && t > 0.0
    ensures a / t < b / t
  {
  }

  lemma DivideAtMostOne(a: real, t: real)
    requires 0.0 < a <= t
    ensures 0.0 < a / t <= 1.0
  {
  }

  /** The progress values strictly increase and lie in (0, 1]. */
  lemma {:induction false} ExpectedProgressIncreasing(segs: seq<Segment>, n: nat)
    requires n <= |segs|
    ensures forall a, b | 0 <= a < b < |ExpectedProgress(segs, n)| :: ExpectedProgress(segs, n)[a] < ExpectedProgress(segs, n)[b]
    ensures forall k | 0 <= k < |ExpectedProgress(segs, n)| :: 0.0 < ExpectedProgress(segs, n)[k] <= n as real / |segs| as real
    ensures forall k | 0 <= k < |ExpectedProgress(segs, n)| :: ExpectedProgress(segs, n)[k] <= 1.0
  {
    if n > 0 {
      ExpectedProgressIncreasing(segs, n - 1);
      var prev := ExpectedProgress(segs, n - 1);
      var total := |segs| as real;
      var below := (n - 1) as real / total;
      var top := n as real / total;
      DivideLess((n - 1) as real, n as real, total);
      DivideAtMostOne(n as real, total);
      assert below < top <= 1.0;
      var extra := if Duration(segs[n - 1]) > 0.0 then [top] else [];
      var p := prev + extra;
      assert ExpectedProgress(segs, n) == p;
      forall k | 0 <= k < |p|
        ensures 0.0 < p[k] <= top
      {
        if k < |prev| {
          assert p[k] == prev[k];
          assert prev[k] <= below;
        } else {
          assert p[k] == top;
        }
      }
      forall a, b | 0 <= a < b < |p|
        ensures p[a] < p[b]
      {
        assert p[a] == prev[a];
        if b < |prev| {
          assert p[b] == prev[b];
        } else {
          assert p[b] == top;
          assert prev[a] <= below;
        }
      }
    }
  }
}
