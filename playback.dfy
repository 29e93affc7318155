/**
 * The video player's state machine: play and pause, scrubbing, seeking,
 * loading and closing, the reader thread, the one-slot frame mailbox and
 * the ffplay audio process.
 *
 * The capture, the reader thread and the audio process are reduced to what
 * the state logic sees: whether the capture is open, whether a reader thread
 * is running, and the start second of a running ffplay process. Frames are
 * abstract. Every call into OpenCV or ffplay becomes a parameter: whether
 * the capture opened, the frame rate it reported, the frame a read returned,
 * whether ffplay is installed and whether launching it succeeds.
 * `after(0, _deliver_frame, sec)` appends `sec` to the queue `deliveries`
 * that the Tk main loop later drains in order.
 */
module Playback {
  import opened Wrappers
  import opened Timeline

  /** A decoded video frame, kept abstract. */
  datatype Frame = Frame(id: nat)

  /** What the environment decides: whether `ffplay` is on the PATH, and whether starting it succeeds. */
  datatype Env = Env(ffplayAvailable: bool, ffplayLaunches: bool)

  /** The player's abstract state. `audio` holds the start second of the running ffplay process. */
  datatype Player = Player(
    capOpen: bool,
    path: Option<string>,
    duration: real,
    fps: real,
    playing: bool,
    currentSec: real,
    scrubbing: bool,
    wasPlaying: bool,
    reader: bool,
    audio: Option<real>,
    warned: bool,
    pending: Option<Frame>,
    deliveries: seq<real>)

  /** Python's truth test `self.path`: a path that is present and not empty. */
  predicate HasPath(p: Player) {
    p.path.Some? && p.path.value != ""
  }

  /** `stop_audio`: a running ffplay is terminated and the handle dropped. */
  function StopAudioOf(p: Player): Player {
    p.(audio := None)
  }

  /**
   * `start_audio`: without ffplay or without a path nothing starts, and a
   * missing ffplay is reported once; otherwise any running ffplay is stopped
   * and a new one started at `start`, unless launching it fails.
   */
  function StartAudioOf(env: Env, p: Player, start: real): Player {
    if !env.ffplayAvailable || !HasPath(p) then
      (if !env.ffplayAvailable && !p.warned then p.(warned := true) else p)
    else
      p.(audio := if env.ffplayLaunches then Some(start) else None)
  }

  /** `restart_audio`. */
  function RestartAudioOf(env: Env, p: Player, sec: real): Player {
    StartAudioOf(env, p.(audio := None), sec)
  }

  /** `start_thread`: a reader thread is started unless one is running. */
  function StartThreadOf(p: Player): Player {
    if p.reader then p else p.(reader := true)
  }

  /** `stop_thread`. */
  function StopThreadOf(p: Player): Player {
    p.(reader := false)
  }

  /** `close`: audio and thread stop, the capture and the picture go, the position returns to 0. `playing` is kept. */
  function CloseOf(p: Player): Player {
    p.(audio := None, reader := false, capOpen := false, currentSec := 0.0)
  }

  /**
   * `seek`: without a capture nothing happens; otherwise the target is
   * clamped into the video, a frame read there goes to the mailbox with a
   * delivery scheduled, and the audio restarts there only during normal playback.
   */
  function SeekOf(env: Env, p: Player, sec: real, read: Option<Frame>): Player {
    if !p.capOpen then p
    else
      var s := ClampSec(sec, p.duration);
      var q := if read.Some? then p.(pending := read, deliveries := p.deliveries + [s]) else p;
      if q.playing && !q.scrubbing then RestartAudioOf(env, q, s) else q
  }

  /** The frame rate `load` keeps: the reported one when it is above 1, else 30. */
  function FpsOf(reported: real): (fps: real)
    ensures fps > 1.0
    ensures fps == reported || fps == 30.0
  {
    if reported > 1.0 then reported else 30.0
  }

  /**
   * `load` as written: close, record the path and a duration of at least
   * 0.01, open the capture, seek to the first frame, and only then clear
   * `playing`. When the player was playing, that seek restarts ffplay.
   */
  function LoadAsWritten(env: Env, p: Player, path: string, dur: real, isOpen: bool, reportedFps: real, first: Option<Frame>): Player {
    var c := CloseOf(p).(path := Some(path), duration := Max(0.01, dur));
    if !isOpen then c
    else SeekOf(env, c.(capOpen := true, fps := FpsOf(reportedFps)), 0.0, first).(playing := false)
  }

  /** `load` with `playing` cleared before the first-frame seek, so that the seek cannot start ffplay. */
  function LoadOf(env: Env, p: Player, path: string, dur: real, isOpen: bool, reportedFps: real, first: Option<Frame>): Player {
    var c := CloseOf(p).(path := Some(path), duration := Max(0.01, dur));
    if !isOpen then c
    else SeekOf(env, c.(capOpen := true, fps := FpsOf(reportedFps), playing := false), 0.0, first)
  }

  /** `toggle_play`: with a capture, pause (stop audio and thread) or play (start thread and audio at the position). */
  function TogglePlayOf(env: Env, p: Player): Player {
    if !p.capOpen then p
    else if p.playing then p.(playing := false, audio := None, reader := false)
    else StartAudioOf(env, p.(playing := true, reader := true), p.currentSec)
  }

  /** `begin_scrub`: unless already scrubbing, remember `playing`, pause, stop audio and thread, and mark scrubbing. */
  function BeginScrubOf(p: Player): Player {
    if p.scrubbing then p
    else p.(wasPlaying := p.playing, playing := false, audio := None, reader := false, scrubbing := true)
  }

  /** `scrub_to`: a seek during a drag. */
  function ScrubToOf(env: Env, p: Player, sec: real, read: Option<Frame>): Player {
    SeekOf(env, p, sec, read)
  }

  /** `end_scrub`: when scrubbing, stop scrubbing and resume playback if it was playing before. */
  function EndScrubOf(env: Env, p: Player): Player {
    if !p.scrubbing then p
    else
      if p.wasPlaying then StartAudioOf(env, p.(scrubbing := false, playing := true, reader := true), p.currentSec)
      else p.(scrubbing := false)
  }

  /**
   * `_deliver_frame(sec)` for the oldest scheduled delivery: an empty mailbox
   * means nothing to show; otherwise the mailbox's frame is shown, the
   * mailbox emptied, and `sec` becomes the position.
   */
  function DeliverOf(p: Player): Player
    requires p.deliveries != []
  {
    var sec := p.deliveries[0];
    if p.pending.None? then p.(deliveries := p.deliveries[1..])
    else p.(deliveries := p.deliveries[1..], pending := None, currentSec := sec)
  }

  /**
   * One pass of `_reader_loop`: while the thread runs, playback is on and a
   * frame is read, the frame goes to the mailbox at its position; otherwise
   * the loop ends and stops the audio.
   */
  function ReaderStepOf(p: Player, read: Option<(Frame, real)>): Player {
    if !p.reader then p
    else if !p.playing || !p.capOpen || read.None? then p.(reader := false, audio := None)
    else
      var sec := read.value.1 / 1000.0;
      p.(currentSec := sec, pending := Some(read.value.0), deliveries := p.deliveries + [sec])
  }

  /** The reader thread and the ffplay audio run only during playback. */
  predicate Inv(p: Player) {
    (p.reader ==> p.playing) && (p.audio.Some? ==> p.playing)
  }

  /** Play and pause keep the thread and the audio tied to playback. */
  lemma TogglePlayInv(env: Env, p: Player)
    requires Inv(p)
    ensures Inv(TogglePlayOf(env, p))
  {
  }

  /** Beginning and ending a scrub keep the thread and the audio tied to playback. */
  lemma ScrubInv(env: Env, p: Player)
    requires Inv(p)
    ensures Inv(BeginScrubOf(p)) && Inv(EndScrubOf(env, p))
  {
  }

  /** Seeking, also during a drag, keeps the thread and the audio tied to playback. */
  lemma SeekInv(env: Env, p: Player, sec: real, read: Option<Frame>)
    requires Inv(p)
    ensures Inv(SeekOf(env, p, sec, read)) && Inv(ScrubToOf(env, p, sec, read))
  {
  }

  /** Closing stops both; the reader thread and the frame deliveries keep the invariant, and the reader's exit stops the audio. */
  lemma CloseReaderDeliverInv(p: Player, step: Option<(Frame, real)>)
    requires Inv(p)
    ensures Inv(CloseOf(p)) && Inv(ReaderStepOf(p, step))
    ensures p.deliveries != [] ==> Inv(DeliverOf(p))
    ensures p.reader && (!p.playing || !p.capOpen || step.None?) ==>
      ReaderStepOf(p, step).audio.None? && !ReaderStepOf(p, step).reader
  {
  }

  /** Beginning a scrub twice is beginning it once. */
  lemma BeginScrubIdempotent(p: Player)
    ensures BeginScrubOf(BeginScrubOf(p)) == BeginScrubOf(p)
  {
  }

  /**
   * Beginning a scrub outside a scrub pauses, silences, stops the thread and
   * marks scrubbing, also when the player was stopped; inside a scrub it does nothing.
   */
  lemma BeginScrubEffect(p: Player)
    ensures p.scrubbing ==> BeginScrubOf(p) == p
    ensures !p.scrubbing ==> var q := BeginScrubOf(p);
      q.scrubbing && !q.playing && q.audio == None && !q.reader
      && q.wasPlaying == (if p.scrubbing then p.wasPlaying else p.playing)
      && q.currentSec == p.currentSec && q.capOpen == p.capOpen && q.pending == p.pending
  {
  }

  /**
   * A scrub that begins outside a scrub and then ends restores `playing`,
   * and resumes thread and audio at the position exactly when it was playing.
   */
  lemma ScrubRestoresPlaying(env: Env, p: Player)
    requires !p.scrubbing
    ensures var q := EndScrubOf(env, BeginScrubOf(p));
      !q.scrubbing && q.playing == p.playing && q.reader == p.playing
      && q.audio == (if p.playing && env.ffplayAvailable && HasPath(p) && env.ffplayLaunches then Some(p.currentSec) else None)
  {
  }

  /** Ending a scrub outside a scrub does nothing. */
  lemma EndScrubOutside(env: Env, p: Player)
    requires !p.scrubbing
    ensures EndScrubOf(env, p) == p
  {
  }

  /** During a scrub, moving the handle never touches the audio. */
  lemma ScrubToKeepsAudio(env: Env, p: Player, sec: real, read: Option<Frame>)
    requires p.scrubbing
    ensures ScrubToOf(env, p, sec, read).audio == p.audio
    ensures ScrubToOf(env, p, sec, read).warned == p.warned
  {
  }

  /**
   * A seek does nothing without a capture; with one, it schedules the frame
   * at the target clamped into the video, and restarts audio exactly during normal playback.
   */
  lemma SeekFacts(env: Env, p: Player, sec: real, read: Option<Frame>)
    requires p.duration >= 0.0
    ensures !p.capOpen ==> SeekOf(env, p, sec, read) == p
    ensures p.capOpen ==> var q := SeekOf(env, p, sec, read);
      && q.pending == (if read.Some? then read else p.pending)
      && q.deliveries == (if read.Some? then p.deliveries + [ClampSec(sec, p.duration)] else p.deliveries)
      && 0.0 <= ClampSec(sec, p.duration) <= p.duration
      && (q.audio != p.audio ==> p.playing && !p.scrubbing)
      && (p.playing && !p.scrubbing && env.ffplayAvailable && HasPath(p) ==>
            q.audio == (if env.ffplayLaunches then Some(ClampSec(sec, p.duration)) else None))
      && (p.playing && !p.scrubbing && !(env.ffplayAvailable && HasPath(p)) ==> q.audio.None?)
      && q.playing == p.playing && q.scrubbing == p.scrubbing && q.currentSec == p.currentSec
  {
  }

  /**
   * Loading opens the capture with a duration of at least 0.01 s, the
   * reported frame rate or 30, paused, with no thread and no audio and the
   * first frame in the mailbox; a capture that does not open leaves it closed.
   */
  lemma LoadFacts(env: Env, p: Player, path: string, dur: real, isOpen: bool, reportedFps: real, first: Option<Frame>)
    ensures var q := LoadOf(env, p, path, dur, isOpen, reportedFps, first);
      && q.duration >= 0.01 && q.path == Some(path) && q.capOpen == isOpen
      && !q.reader && q.audio == None && q.currentSec == 0.0
      && (isOpen ==> !q.playing && q.fps == (if reportedFps > 1.0 then reportedFps else 30.0))
      && (isOpen && first.Some? ==> q.pending == first && q.deliveries == p.deliveries + [0.0])
      && (!isOpen ==> q.fps == p.fps && q.playing == p.playing)
  {
  }

  /**
   * `load` as written, while playing, starts ffplay at 0 and then reports
   * itself paused: the audio runs with playback off.
   */
  lemma LoadAsWrittenLeavesAudio(env: Env, p: Player, path: string, dur: real, reportedFps: real, first: Option<Frame>)
    requires p.playing && !p.scrubbing && path != ""
    requires env.ffplayAvailable && env.ffplayLaunches
    ensures var q := LoadAsWritten(env, p, path, dur, true, reportedFps, first);
      !q.playing && q.audio == Some(0.0) && !Inv(q)
  {
  }

  /** The corrected `load`, from any state the invariant holds in, leaves no audio running and keeps the invariant. */
  lemma LoadKeepsSilent(env: Env, p: Player, path: string, dur: real, isOpen: bool, reportedFps: real, first: Option<Frame>)
    requires Inv(p)
    ensures LoadOf(env, p, path, dur, isOpen, reportedFps, first).audio == None
    ensures Inv(LoadOf(env, p, path, dur, isOpen, reportedFps, first))
  {
  }

  /**
   * The one-slot mailbox: two seeks before the main loop runs leave only
   * the second frame; the first delivery shows it with the first target as
   * the position, and the second delivery finds the mailbox empty and changes nothing else.
   */
  lemma MailboxKeepsNewest(env: Env, p: Player, a: real, b: real, f: Frame, g: Frame)
    requires p.capOpen && !p.playing && p.deliveries == [] && 0.0 <= a <= p.duration && 0.0 <= b <= p.duration
    ensures var q := SeekOf(env, SeekOf(env, p, a, Some(f)), b, Some(g));
      && q.deliveries == [a, b]
      && q.pending == Some(g) && DeliverOf(q).currentSec == a && DeliverOf(q).pending == None
      && DeliverOf(DeliverOf(q)) == DeliverOf(q).(deliveries := [])
  {
  }

  /** A delivery empties the mailbox and consumes exactly one scheduled call. */
  lemma DeliverFacts(p: Player)
    requires p.deliveries != []
    ensures DeliverOf(p).pending == None && DeliverOf(p).deliveries == p.deliveries[1..]
    ensures DeliverOf(p).currentSec == (if p.pending.Some? then p.deliveries[0] else p.currentSec)
  {
  }

  /** The missing-ffplay notice is raised at most once: once warned, starting audio changes nothing. */
  lemma WarnOnce(env: Env, p: Player, start: real)
    requires !env.ffplayAvailable
    ensures StartAudioOf(env, p, start).warned && StartAudioOf(env, p, start).audio == p.audio
    ensures p.warned ==> StartAudioOf(env, p, start) == p
    ensures !p.warned ==> StartAudioOf(env, p, start) == p.(warned := true)
  {
  }

  class VideoPlayer {
    const ffplayAvailable: bool
    const ffplayLaunches: bool
    var capOpen: bool
    var path: Option<string>
    var duration: real
    var fps: real
    var playing: bool
    var currentSec: real
    var scrubbing: bool
    var wasPlaying: bool
    var reader: bool
    var audio: Option<real>
    var warned: bool
    var pending: Option<Frame>
    var deliveries: seq<real>

    function EnvOf(): Env
      reads this
    {
      Env(ffplayAvailable, ffplayLaunches)
    }

    function State(): Player
      reads this
    {
      Player(capOpen, path, duration, fps, playing, currentSec, scrubbing, wasPlaying,
             reader, audio, warned, pending, deliveries)
    }

    constructor (ffplayAvailable: bool, ffplayLaunches: bool)
      ensures EnvOf() == Env(ffplayAvailable, ffplayLaunches)
      ensures State() == Player(false, None, 0.0, 30.0, false, 0.0, false, false, false, None, false, None, [])
    {
      this.ffplayAvailable := ffplayAvailable;
      this.ffplayLaunches := ffplayLaunches;
      capOpen, path, duration, fps := false, None, 0.0, 30.0;
      playing, currentSec, scrubbing, wasPlaying := false, 0.0, false, false;
      reader, audio, warned := false, None, false;
      pending, deliveries := None, [];
    }

    method StopAudio()
      modifies this
      ensures State() == StopAudioOf(old(State()))
    {
      audio := None;
    }

    method StartAudio(start: real)
      modifies this
      ensures State() == StartAudioOf(EnvOf(), old(State()), start)
    {
      if !ffplayAvailable || path.None? || path.value == "" {
        if !ffplayAvailable && !warned {
          warned := true;
        }
        return;
      }
      StopAudio();
      if ffplayLaunches {
        audio := Some(start);
      }
    }

    method RestartAudio(sec: real)
      modifies this
      ensures State() == RestartAudioOf(EnvOf(), old(State()), sec)
    {
      StopAudio();
      StartAudio(sec);
    }

    method StartThread()
      modifies this
      ensures State() == StartThreadOf(old(State()))
    {
      if reader {
        return;
      }
      reader := true;
    }

    method StopThread()
      modifies this
      ensures State() == StopThreadOf(old(State()))
    {
      reader := false;
    }

    method Close()
      modifies this
      ensures State() == CloseOf(old(State()))
    {
      StopAudio();
      StopThread();
      capOpen, currentSec := false, 0.0;
    }

    method Seek(sec: real, read: Option<Frame>)
      modifies this
      ensures State() == SeekOf(EnvOf(), old(State()), sec, read)
    {
      if !capOpen {
        return;
      }
      var s := ClampSec(sec, duration);
      if read.Some? {
        pending, deliveries := read, deliveries + [s];
      }
      if playing && !scrubbing {
        RestartAudio(s);
      }
    }

    /** `load`, with the correction that playback is off before the first-frame seek. */
    method Load(p: string, dur: real, isOpen: bool, reportedFps: real, first: Option<Frame>)
      modifies this
      ensures State() == LoadOf(EnvOf(), old(State()), p, dur, isOpen, reportedFps, first)
    {
      Close();
      ghost var c := CloseOf(old(State())).(path := Some(p), duration := Max(0.01, dur));
      path, duration := Some(p), Max(0.01, dur);
      assert State() == c;
      if !isOpen {
        return;
      }
      capOpen, fps, playing := true, FpsOf(reportedFps), false;
      assert State() == c.(capOpen := true, fps := FpsOf(reportedFps), playing := false);
      Seek(0.0, first);
    }

    method TogglePlay()
      modifies this
      ensures State() == TogglePlayOf(EnvOf(), old(State()))
    {
      if !capOpen {
        return;
      }
      if playing {
        playing := false;
        StopAudio();
        StopThread();
      } else {
        playing := true;
        StartThread();
        StartAudio(currentSec);
      }
    }

    method BeginScrub()
      modifies this
      ensures State() == BeginScrubOf(old(State()))
    {
      if scrubbing {
        return;
      }
      wasPlaying, playing := playing, false;
      StopAudio();
      StopThread();
      scrubbing := true;
    }

    method ScrubTo(sec: real, read: Option<Frame>)
      modifies this
      ensures State() == ScrubToOf(EnvOf(), old(State()), sec, read)
    {
      Seek(sec, read);
    }

    method EndScrub()
      modifies this
      ensures State() == EndScrubOf(EnvOf(), old(State()))
    {
      if !scrubbing {
        return;
      }
      scrubbing := false;
      if wasPlaying {
        playing := true;
        StartThread();
        StartAudio(currentSec);
      }
    }

    /** The main loop runs the oldest scheduled `_deliver_frame`; `shown` is the frame handed to `_show_frame`. */
    method DeliverFrame() returns (shown: Option<Frame>)
      requires deliveries != []
      modifies this
      ensures shown == old(pending)
      ensures State() == DeliverOf(old(State()))
    {
      var sec := deliveries[0];
      shown := pending;
      deliveries := deliveries[1..];
      if pending.None? {
        return;
      }
      pending, currentSec := None, sec;
    }

    /** One pass of the reader thread with the result of `cap.read()` and the capture's position in milliseconds. */
    method ReaderStep(read: Option<(Frame, real)>)
      modifies this
      ensures State() == ReaderStepOf(old(State()), read)
    {
      if !reader {
        return;
      }
      if !playing || !capOpen || read.None? {
        reader := false;
        StopAudio();
        return;
      }
      var sec := read.value.1 / 1000.0;
      currentSec, pending, deliveries := sec, Some(read.value.0), deliveries + [sec];
    }
  }
}
