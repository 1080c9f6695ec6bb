/** Frames on their way from the host's encoder to the viewer's decoder. */
module Frames {
  /** `index` is the frame's place among the encoder's non-empty outputs. */
  datatype Frame = Frame(sequence: nat, index: nat, keyframe: bool)

  /** A delta frame can be decoded only straight after the previous output. */
  predicate Follows(before: Frame, after: Frame) {
    after.keyframe || (after.index == before.index + 1 && after.sequence == before.sequence + 1)
  }

  predicate Chained(frames: seq<Frame>) {
    forall i | 0 < i < |frames| :: Follows(frames[i - 1], frames[i])
  }
}

/** The host's capture, encode and send loop. */
module Sender {
  import opened Basics
  import opened Frames

  const IDLE_FULL_RATE_TICKS := 30
  const U32_MAX := 0xFFFF_FFFF

  datatype Capture = NewPicture | Unchanged | CaptureFailed

  datatype Room = Accepted | Full | Gone

  // ---------------------------------------------------------------------
  // The encoder
  // ---------------------------------------------------------------------

  /**
   `made` counts the non-empty outputs, `requested` is the pending request for a keyframe, and `pictures` are
   those sent in but not yet out, each with whether it was forced to be a keyframe. It outlives a connection.
   */
  datatype Encoder = Encoder(made: nat, requested: bool, pictures: seq<bool>)

  /** A new encoder starts with a keyframe. */
  const NEW_ENCODER := Encoder(0, true, [])

  datatype Received = Nothing | Broke | Packet(natural: bool)

  /** One attempt: scaling fails, sending the picture in fails, or it is in and something may come out. */
  datatype Attempt = ScaleFailed | SendFailed | Sent(received: Received)

  datatype Encoded = Failed | Buffered | Output(keyframe: bool)

  function Request(e: Encoder): Encoder { e.(requested := true) }

  /** The request is taken before the picture is sent, so a failure to send loses it. */
  function Encode(e: Encoder, a: Attempt): (Encoder, Encoded) {
    match a
    case ScaleFailed => (e, Failed)
    case SendFailed => (e.(requested := false), Failed)
    case Sent(received) =>
      var pictures := e.pictures + [e.requested];
      match received
      case Nothing => (Encoder(e.made, false, pictures), Buffered)
      case Broke => (Encoder(e.made, false, pictures), Failed)
      case Packet(natural) => (Encoder(e.made + 1, false, pictures[1..]), Output(pictures[0] || natural))
  }

  class VideoEncoder {
    var made: nat
    var forceKeyframe: bool
    var pictures: seq<bool>

    constructor ()
      ensures Now() == NEW_ENCODER
    {
      made, forceKeyframe, pictures := 0, true, [];
    }

    function Now(): Encoder
      reads this
    {
      Encoder(made, forceKeyframe, pictures)
    }

    method RequestKeyframe()
      modifies this
      ensures Now() == Request(old(Now()))
    {
      forceKeyframe := true;
    }

    method EncodePicture(a: Attempt) returns (encoded: Encoded)
      modifies this
      ensures (Now(), encoded) == Encode(old(Now()), a)
    {
      if a.ScaleFailed? {
        return Failed;
      }
      var forced := forceKeyframe;
      forceKeyframe := false;
      if a.SendFailed? {
        return Failed;
      }
      pictures := pictures + [forced];
      match a.received {
        case Nothing => return Buffered;
        case Broke => return Failed;
        case Packet(natural) =>
          encoded := Output(pictures[0] || natural);
          pictures := pictures[1..];
          made := made + 1;
      }
    }
  }

  // ---------------------------------------------------------------------
  // The loop
  // ---------------------------------------------------------------------

  /** What the surroundings do during one tick. */
  datatype Tick = Tick(late: bool, closed: bool, capture: Capture, attempt: Attempt, room: Room)

  datatype State = State(encoder: Encoder, sequence: nat, awaiting: bool, idle: nat, pictured: bool, ended: bool)

  /** A new connection asks for a keyframe. */
  function Connect(e: Encoder): State { State(Request(e), 0, false, 0, false, false) }

  /** The picture is due: there is one, and an idle screen is sent at a third of the rate. */
  function Captured(s: State, capture: Capture): State {
    match capture
    case NewPicture => s.(pictured := true, idle := 0)
    case Unchanged => s.(idle := if s.idle < U32_MAX then s.idle + 1 else s.idle)
    case CaptureFailed => s
  }

  predicate Due(s: State, capture: Capture) {
    var c := Captured(s, capture);
    !capture.CaptureFailed? && c.pictured && (c.idle < IDLE_FULL_RATE_TICKS || c.idle % 3 == 0)
  }

  /** One tick, and the frame that enters the queue, if any. */
  function OnTick(s: State, t: Tick): (State, Option<Frame>) {
    if s.ended || t.late then (s, None)
    else if t.closed then (s.(ended := true), None)
    else
      var c := Captured(s, t.capture);
      if !Due(s, t.capture) then (c, None)
      else
        var (encoder, encoded) := Encode(c.encoder, t.attempt);
        var m := c.(encoder := encoder);
        if !encoded.Output? || (m.awaiting && !encoded.keyframe) then (m, None)
        else
          var n := m.(sequence := m.sequence + 1, awaiting := false);
          match t.room
          case Accepted => (n, Some(Frame(n.sequence, encoder.made, encoded.keyframe)))
          case Full => (n.(awaiting := true, encoder := Request(encoder)), None)
          case Gone => (n.(ended := true), None)
  }

  function Run(s: State, ticks: seq<Tick>): (State, seq<Frame>)
    decreases |ticks|
  {
    if ticks == [] then (s, [])
    else
      var (before, sent) := Run(s, ticks[..|ticks| - 1]);
      var (after, frame) := OnTick(before, ticks[|ticks| - 1]);
      (after, if frame.Some? then sent + [frame.value] else sent)
  }

  /** While no keyframe is awaited, the last frame sent is the encoder's last output. */
  predicate UpToDate(s: State, sent: seq<Frame>) {
    sent != [] && !s.awaiting && !s.ended ==>
      sent[|sent| - 1].index == s.encoder.made && sent[|sent| - 1].sequence == s.sequence
  }

  lemma TickKeepsChain(s: State, t: Tick, sent: seq<Frame>)
    requires Chained(sent) && UpToDate(s, sent)
    ensures var (after, frame) := OnTick(s, t);
            var more := if frame.Some? then sent + [frame.value] else sent;
            Chained(more) && UpToDate(after, more)
  {
  }

  /**
   On one connection every frame the host delivers is a keyframe or directly
   follows, in encoder order and in sequence, the frame delivered before it.
   */
  lemma {:induction false} DeliveredIsChained(e: Encoder, ticks: seq<Tick>)
    ensures var (s, sent) := Run(Connect(e), ticks); Chained(sent) && UpToDate(s, sent)
    decreases |ticks|
  {
    if ticks != [] {
      var rest := ticks[..|ticks| - 1];
      DeliveredIsChained(e, rest);
      TickKeepsChain(Run(Connect(e), rest).0, ticks[|ticks| - 1], Run(Connect(e), rest).1);
    }
  }

  /** Hence a gap in the delivered sequence numbers is followed at once by a keyframe. */
  lemma GapMeetsKeyframe(e: Encoder, ticks: seq<Tick>, i: nat)
    requires var sent := Run(Connect(e), ticks).1;
             0 < i < |sent| && sent[i].sequence != sent[i - 1].sequence + 1
    ensures Run(Connect(e), ticks).1[i].keyframe
  {
    DeliveredIsChained(e, ticks);
  }

  // ---------------------------------------------------------------------
  // What is sent
  // ---------------------------------------------------------------------

  /** A tick that sees a new picture, gets an output for it, and finds room in the queue. */
  predicate Productive(t: Tick) {
    && !t.late && !t.closed && t.capture.NewPicture? && t.room.Accepted?
    && t.attempt.Sent? && t.attempt.received.Packet?
  }

  /** While no keyframe is awaited, every output is sent under the next number. */
  lemma OutputIsSent(s: State, t: Tick)
    requires Productive(t) && !s.ended && !s.awaiting
    ensures var (after, frame) := OnTick(s, t);
            && after.encoder.made == s.encoder.made + 1 && after.sequence == s.sequence + 1 && !after.awaiting
            && frame.Some? && frame.value.sequence == after.sequence && frame.value.index == after.encoder.made
            && frame.value.keyframe
               == (t.attempt.received.natural || (s.encoder.pictures + [s.encoder.requested])[0])
  {
  }

  /** When the viewer is gone the loop ends, and an ended loop does nothing. */
  lemma EndsExactly(s: State, t: Tick)
    ensures s.ended ==> OnTick(s, t) == (s, None)
    ensures !s.ended && !t.late && t.closed ==> OnTick(s, t).0.ended && OnTick(s, t).1 == None
    ensures OnTick(s, t).0.ended ==> s.ended || (!t.late && (t.closed || t.room.Gone?))
  {
  }

  /** The unchanged captures since the last new picture; late ticks and failed captures do not count. */
  function StillFor(ticks: seq<Tick>): nat {
    if ticks == [] then 0
    else
      var before, t := StillFor(ticks[..|ticks| - 1]), ticks[|ticks| - 1];
      if t.late || t.capture.CaptureFailed? then before
      else if t.capture.NewPicture? then 0
      else before + 1
  }

  predicate Seen(ticks: seq<Tick>) {
    exists t | t in ticks :: !t.late && t.capture.NewPicture?
  }

  lemma SeenSnoc(ticks: seq<Tick>, t: Tick)
    ensures Seen(ticks + [t]) <==> Seen(ticks) || (!t.late && t.capture.NewPicture?)
  {
    assert forall x :: x in ticks + [t] <==> x in ticks || x == t;
  }

  /** The loop counts them, up to the largest number of its counter, and knows whether it has seen a picture. */
  lemma {:induction false} StillIsCounted(e: Encoder, ticks: seq<Tick>)
    requires forall t | t in ticks :: !t.closed && !t.room.Gone?
    ensures var s := Run(Connect(e), ticks).0;
            && !s.ended && s.idle == (if StillFor(ticks) <= 0xFFFF_FFFF then StillFor(ticks) else 0xFFFF_FFFF)
            && s.pictured == Seen(ticks)
    decreases |ticks|
  {
    if ticks != [] {
      var rest, last := ticks[..|ticks| - 1], ticks[|ticks| - 1];
      assert ticks == rest + [last] && last in ticks;
      StillIsCounted(e, rest);
      SeenSnoc(rest, last);
    }
  }

  /**
   Which ticks reach the encoder: those with a picture to show whose screen has been still for less than 30 captures,
   or for a multiple of three.
   */
  lemma DueExactly(e: Encoder, ticks: seq<Tick>, t: Tick)
    requires forall x | x in ticks :: !x.closed && !x.room.Gone?
    requires !t.late && !t.capture.CaptureFailed? && StillFor(ticks) < 0xFFFF_FFFF
    ensures var still := StillFor(ticks + [t]);
            Due(Run(Connect(e), ticks).0, t.capture) <==> Seen(ticks + [t]) && (still < 30 || still % 3 == 0)
  {
    StillIsCounted(e, ticks);
    SeenSnoc(ticks, t);
    assert (ticks + [t])[..|ticks|] == ticks;
  }

  /** And what reaching it means. */
  lemma DueIsEncoded(s: State, t: Tick)
    requires !s.ended && !t.late && !t.closed
    ensures var after := OnTick(s, t).0.encoder;
            if !Due(s, t.capture) then after == s.encoder
            else after.made == s.encoder.made + (if t.attempt.Sent? && t.attempt.received.Packet? then 1 else 0)
  {
  }

  // ---------------------------------------------------------------------
  // After a drop
  // ---------------------------------------------------------------------

  /** A keyframe that is awaited is on its way: still requested, or a picture inside the encoder was forced. */
  ghost predicate OnItsWay(s: State) {
    s.awaiting && !s.ended ==> s.encoder.requested || true in s.encoder.pictures
  }

  lemma OnItsWayStep(s: State, t: Tick)
    requires OnItsWay(s) && !t.attempt.SendFailed?
    ensures OnItsWay(OnTick(s, t).0)
  {
    var e := s.encoder;
    var pictures := e.pictures + [e.requested];
    assert pictures == [pictures[0]] + pictures[1..] && pictures[|e.pictures|] == e.requested;
    assert true in e.pictures || e.requested ==> true in pictures;
  }

  /** Over every run that loses no request, an awaited keyframe is on its way. */
  lemma {:induction false} AwaitedIsOnItsWay(e: Encoder, ticks: seq<Tick>)
    requires forall t | t in ticks :: !t.attempt.SendFailed?
    ensures OnItsWay(Run(Connect(e), ticks).0)
    decreases |ticks|
  {
    if ticks != [] {
      var rest, last := ticks[..|ticks| - 1], ticks[|ticks| - 1];
      assert last in ticks && forall t | t in rest :: t in ticks;
      AwaitedIsOnItsWay(e, rest);
      OnItsWayStep(Run(Connect(e), rest).0, last);
    }
  }

  /** How many outputs come before that of the first forced picture. */
  function Depth(pictures: seq<bool>): (n: nat)
    ensures n <= |pictures|
  {
    if pictures == [] || pictures[0] then 0 else 1 + Depth(pictures[1..])
  }

  lemma {:induction false} DepthSnoc(pictures: seq<bool>, forced: bool)
    ensures true in pictures || forced ==> Depth(pictures + [forced]) == Depth(pictures)
    decreases |pictures|
  {
    if pictures != [] {
      assert (pictures + [forced])[1..] == pictures[1..] + [forced];
      assert pictures == [pictures[0]] + pictures[1..];
      DepthSnoc(pictures[1..], forced);
    }
  }

  /** Nothing is lost on the way: the queue has room and no request gets lost. */
  predicate Smooth(t: Tick) { !t.closed && t.room.Accepted? && !t.attempt.SendFailed? }

  lemma AwaitingStep(s: State, t: Tick)
    requires s.awaiting && !s.ended && OnItsWay(s) && Smooth(t)
    ensures var (after, frame) := OnTick(s, t);
            && !after.ended && OnItsWay(after)
            && (frame.Some? ==> frame.value.keyframe)
            && (frame.None? ==>
                  after.awaiting
                  && after.encoder.made + Depth(after.encoder.pictures) <= s.encoder.made + Depth(s.encoder.pictures))
  {
    OnItsWayStep(s, t);
    DepthSnoc(s.encoder.pictures, s.encoder.requested);
  }

  /**
   After a drop, whatever is still inside the encoder, the first frame sent again is a keyframe, and it is sent no
   later than with the output of the first picture after the drop.
   */
  lemma {:induction false} KeyframeFollowsDrop(s: State, ticks: seq<Tick>)
    requires s.awaiting && !s.ended && OnItsWay(s) && forall t | t in ticks :: Smooth(t)
    ensures var (after, sent) := Run(s, ticks);
            && !after.ended
            && (if sent != [] then sent[0].keyframe
                else after.awaiting && OnItsWay(after)
                     && after.encoder.made + Depth(after.encoder.pictures)
                        <= s.encoder.made + Depth(s.encoder.pictures))
    ensures Run(s, ticks).0.encoder.made > s.encoder.made + |s.encoder.pictures| ==> Run(s, ticks).1 != []
    decreases |ticks|
  {
    if ticks != [] {
      var rest, last := ticks[..|ticks| - 1], ticks[|ticks| - 1];
      assert last in ticks && forall t | t in rest :: t in ticks;
      KeyframeFollowsDrop(s, rest);
      var (before, sent) := Run(s, rest);
      if sent == [] {
        AwaitingStep(before, last);
      } else {
        EndsExactly(before, last);
      }
    }
  }

  lemma {:induction false} ProductiveTicksMake(s: State, ticks: seq<Tick>)
    requires !s.ended && forall t | t in ticks :: Productive(t)
    ensures !Run(s, ticks).0.ended && Run(s, ticks).0.encoder.made == s.encoder.made + |ticks|
    decreases |ticks|
  {
    if ticks != [] {
      var rest, last := ticks[..|ticks| - 1], ticks[|ticks| - 1];
      assert last in ticks && forall t | t in rest :: t in ticks;
      ProductiveTicksMake(s, rest);
    }
  }

  /**
   From any run that lost no request and awaits a keyframe: one more productive tick than there are pictures inside
   the encoder brings one to the viewer, even if the encoder makes none by itself.
   */
  lemma RecoversFromDrop(e: Encoder, ticks: seq<Tick>, more: seq<Tick>)
    requires forall t | t in ticks :: !t.attempt.SendFailed?
    requires Run(Connect(e), ticks).0.awaiting && !Run(Connect(e), ticks).0.ended
    requires (forall t | t in more :: Productive(t)) && |more| == |Run(Connect(e), ticks).0.encoder.pictures| + 1
    ensures var sent := Run(Run(Connect(e), ticks).0, more).1; sent != [] && sent[0].keyframe
  {
    var s := Run(Connect(e), ticks).0;
    AwaitedIsOnItsWay(e, ticks);
    ProductiveTicksMake(s, more);
    KeyframeFollowsDrop(s, more);
  }

  class RemoteControl {
    const encoder: VideoEncoder
    var sequence: nat
    var awaitingKeyframe: bool
    var idleTicks: nat
    var lastFrame: bool

    /** Any encoder, however earlier connections left it. */
    constructor (encoder: VideoEncoder)
      modifies encoder
      ensures this.encoder == encoder && Now(false) == Connect(old(encoder.Now()))
    {
      this.encoder, sequence, awaitingKeyframe, idleTicks, lastFrame := encoder, 0, false, 0, false;
      new;
      encoder.RequestKeyframe();
    }

    function Now(ended: bool): State
      reads this, encoder
    {
      State(encoder.Now(), sequence, awaitingKeyframe, idleTicks, lastFrame, ended)
    }

    /** One pass of the loop body; `ended` when the viewer is gone. */
    method Pass(t: Tick) returns (frame: Option<Frame>, ended: bool)
      modifies this, encoder
      ensures (Now(ended), frame) == OnTick(old(Now(false)), t)
    {
      frame, ended := None, false;
      if t.late {
        return;
      }
      if t.closed {
        ended := true;
        return;
      }
      match t.capture {
        case NewPicture =>
          lastFrame := true;
          idleTicks := 0;
        case Unchanged =>
          idleTicks := if idleTicks < U32_MAX then idleTicks + 1 else idleTicks;
        case CaptureFailed =>
          return;
      }
      if !lastFrame {
        return;
      }
      if idleTicks >= IDLE_FULL_RATE_TICKS && idleTicks % 3 != 0 {
        return;
      }
      var encoded := encoder.EncodePicture(t.attempt);
      if !encoded.Output? {
        return;
      }
      if awaitingKeyframe {
        if !encoded.keyframe {
          return;
        }
        awaitingKeyframe := false;
      }
      sequence := sequence + 1;
      match t.room {
        case Accepted => frame := Some(Frame(sequence, encoder.made, encoded.keyframe));
        case Full =>
          awaitingKeyframe := true;
          encoder.RequestKeyframe();
        case Gone => ended := true;
      }
    }

    /** The loop: `ticks` is what happens around it, `queue` what it puts into the send queue. */
    method Loop(ticks: seq<Tick>) returns (queue: seq<Frame>, ended: bool)
      modifies this, encoder
      ensures (Now(ended), queue) == Run(old(Now(false)), ticks)
    {
      queue, ended := [], false;
      var n := 0;
      ghost var start := Now(false);
      while n < |ticks|
        invariant 0 <= n <= |ticks|
        invariant (Now(ended), queue) == Run(start, ticks[..n])
      {
        assert ticks[..n + 1][..n] == ticks[..n];
        if !ended {
          var frame;
          frame, ended := Pass(ticks[n]);
          queue := if frame.Some? then queue + [frame.value] else queue;
        }
        n := n + 1;
      }
      assert ticks[..n] == ticks;
    }
  }
}

/** The viewer: the keyframe gate and the decoder behind it. */
module Viewer {
  import opened Basics
  import opened Frames

  /** Lets nothing but a keyframe through after a reset. */
  class KeyframeGate {
    var waiting: bool

    constructor ()
      ensures waiting
    {
      waiting := true;
    }

    method Accept(isKeyframe: bool) returns (accepted: bool)
      modifies this
      ensures accepted == (isKeyframe || !old(waiting))
      ensures waiting == (old(waiting) && !isKeyframe)
    {
      if waiting {
        if !isKeyframe {
          return false;
        }
        waiting := false;
      }
      return true;
    }

    method Reset()
      modifies this
      ensures waiting
    {
      waiting := true;
    }
  }

  /** Building a decoder: no surface or size, a decoder error, another error that ends the connection, or success. */
  datatype Creation = Unavailable | CreationBroke | CreationEscaped | Created

  /** Feeding one frame: broken before or after it was queued, no input buffer, one too small, or queued. */
  datatype Feeding = NoInput | TooSmall | BrokeBefore | Queued(breaksAfter: bool)

  datatype Luck = Luck(creation: Creation, feeding: Feeding)

  /** `fed` lists every frame queued to a decoder, with the decoder instance it went to. */
  datatype State = State(waiting: bool, codec: Option<nat>, instances: nat, fed: seq<(nat, Frame)>)

  function Stopped(v: State): State { v.(waiting := true, codec := None) }

  /** The decoder to use for this frame, after creating one if needed. */
  function Ensured(v: State, creation: Creation): State {
    if v.codec.Some? then v
    else match creation
      case Created => v.(waiting := true, codec := Some(v.instances), instances := v.instances + 1)
      case CreationBroke => Stopped(v)
      case _ => v
  }

  function Decoded(v: State, frame: Frame, luck: Luck): State {
    var e := Ensured(v, luck.creation);
    if e.codec.None? || (e.waiting && !frame.keyframe) then e
    else match luck.feeding
      case NoInput => e.(waiting := true)
      case TooSmall => e.(waiting := true)
      case BrokeBefore => Stopped(e)
      case Queued(breaksAfter) =>
        var f := e.(waiting := false, fed := e.fed + [(e.codec.value, frame)]);
        if breaksAfter then Stopped(f) else f
  }

  /** Every frame a decoder was given is a keyframe or comes straight after one given to the same decoder. */
  predicate Decodable(fed: seq<(nat, Frame)>) {
    forall i | 0 <= i < |fed| ::
      fed[i].1.keyframe || (i > 0 && fed[i - 1].0 == fed[i].0 && fed[i].1.index == fed[i - 1].1.index + 1)
  }

  /** The decoder can be built and takes every frame. */
  const LUCKY := Luck(Created, Queued(false))

  function DecodedAll(v: State, frames: seq<Frame>): State
    decreases |frames|
  {
    if frames == [] then v else DecodedAll(Decoded(v, frames[0], LUCKY), frames[1..])
  }

  function FromKeyframe(frames: seq<Frame>): seq<Frame> {
    if frames == [] || frames[0].keyframe then frames else FromKeyframe(frames[1..])
  }

  function To(codec: nat, frames: seq<Frame>): (pairs: seq<(nat, Frame)>)
    ensures |pairs| == |frames|
  {
    seq(|frames|, i requires 0 <= i < |frames| => (codec, frames[i]))
  }

  /**
   While nothing fails the decoder is given everything: from the next keyframe on when the gate is closed or the
   decoder has to be built, from the next frame on otherwise.
   */
  lemma {:induction false} NothingIsHeldBack(v: State, frames: seq<Frame>)
    ensures var codec := if v.codec.Some? then v.codec.value else v.instances;
            DecodedAll(v, frames).fed
            == v.fed + To(codec, if v.codec.Some? && !v.waiting then frames else FromKeyframe(frames))
    decreases |frames|
  {
    var codec := if v.codec.Some? then v.codec.value else v.instances;
    if frames != [] {
      var first, rest := frames[0], frames[1..];
      NothingIsHeldBack(Decoded(v, first, LUCKY), rest);
      assert To(codec, frames) == [(codec, first)] + To(codec, rest);
      assert v.fed + [(codec, first)] + To(codec, rest) == v.fed + ([(codec, first)] + To(codec, rest));
    }
  }

  /** A decoder that raised an error gets no more frames; the next ones go to a new one, from a keyframe on. */
  lemma BrokenIsReplaced(v: State, frame: Frame, luck: Luck, frames: seq<Frame>)
    requires v.codec.Some? && (v.waiting ==> frame.keyframe)
    requires luck.feeding.BrokeBefore? || luck.feeding == Queued(true)
    ensures var broken := Decoded(v, frame, luck);
            && DecodedAll(broken, frames).fed == broken.fed + To(v.instances, FromKeyframe(frames))
            && broken.fed == v.fed + (if luck.feeding.Queued? then [(v.codec.value, frame)] else [])
  {
    NothingIsHeldBack(Decoded(v, frame, luck), frames);
  }

  class StreamViewer {
    const gate: KeyframeGate
    var codec: Option<nat>
    var instances: nat
    ghost var fed: seq<(nat, Frame)>

    constructor ()
      ensures fresh(gate) && Now() == State(true, None, 0, [])
    {
      gate := new KeyframeGate();
      codec, instances, fed := None, 0, [];
    }

    ghost function Now(): State
      reads this, gate
    {
      State(gate.waiting, codec, instances, fed)
    }

    method StopCodec()
      modifies this, gate
      ensures Now() == Stopped(old(Now()))
    {
      codec := None;
      gate.Reset();
    }

    /** The decoder, or none; `broke` when building one raised a decoder error. */
    method EnsureCodec(creation: Creation) returns (available: bool, broke: bool)
      modifies this, gate
      ensures available == (old(codec).Some? || creation.Created?)
      ensures broke == (old(codec).None? && creation.CreationBroke?)
      ensures Now() == if broke then old(Now()) else Ensured(old(Now()), creation)
    {
      if codec.Some? {
        return true, false;
      }
      match creation {
        case Unavailable => return false, false;
        case CreationEscaped => return false, false;
        case CreationBroke => return false, true;
        case Created =>
          gate.Reset();
          codec := Some(instances);
          instances := instances + 1;
          return true, false;
      }
    }

    method DecodeFrame(frame: Frame, luck: Luck)
      modifies this, gate
      ensures Now() == Decoded(old(Now()), frame, luck)
    {
      var available, broke := EnsureCodec(luck.creation);
      if broke {
        StopCodec();
        return;
      }
      if !available {
        return;
      }
      var accepted := gate.Accept(frame.keyframe);
      if !accepted {
        return;
      }
      match luck.feeding {
        case NoInput => gate.Reset();
        case TooSmall => gate.Reset();
        case BrokeBefore => StopCodec();
        case Queued(breaksAfter) =>
          fed := fed + [(codec.value, frame)];
          if breaksAfter {
            StopCodec();
          }
      }
    }
  }
}

/** Both ends together: ticks, deliveries, surface changes and reconnects in any order. */
module Link {
  import opened Basics
  import opened Frames
  import Sender
  import Viewer

  /** `sent` are the frames of this connection that entered the queue, `taken` how many the viewer has seen. */
  datatype State = State(sender: Sender.State, sent: seq<Frame>, taken: nat, viewer: Viewer.State)

  datatype Step =
    | HostTick(tick: Sender.Tick)
    | Deliver(luck: Viewer.Luck)
    | SurfaceChange
    | Reconnect(gated: bool)

  predicate Init(s: State) {
    && s.sender == Sender.Connect(s.sender.encoder) && s.sent == [] && s.taken == 0
    && s.viewer == Viewer.State(true, None, 0, [])
  }

  /** Frames still in the queue are lost when the connection is. */
  function Next(s: State, step: Step): State {
    match step
    case HostTick(tick) =>
      var (sender, frame) := Sender.OnTick(s.sender, tick);
      s.(sender := sender, sent := if frame.Some? then s.sent + [frame.value] else s.sent)
    case Deliver(luck) =>
      if s.taken < |s.sent| then
        s.(taken := s.taken + 1, viewer := Viewer.Decoded(s.viewer, s.sent[s.taken], luck))
      else s
    case SurfaceChange =>
      s.(viewer := Viewer.Stopped(s.viewer))
    case Reconnect(gated) =>
      State(Sender.Connect(s.sender.encoder), [], 0, if gated then s.viewer.(waiting := true) else s.viewer)
  }

  function Run(s: State, steps: seq<Step>): State
    decreases |steps|
  {
    if steps == [] then s else Run(Next(s, steps[0]), steps[1..])
  }

  // ---------------------------------------------------------------------
  // Careful runs
  // ---------------------------------------------------------------------

  /** The encoder does not lose a request for a keyframe. */
  predicate KeepsRequests(step: Step) {
    step.HostTick? ==> !step.tick.attempt.SendFailed?
  }

  /** What the decoder was given last is what the encoder put out last. */
  predicate CaughtUp(s: State) {
    s.viewer.fed != [] && s.viewer.fed[|s.viewer.fed| - 1].1.index == s.sender.encoder.made
  }

  /**
   The encoder's next output after a connect is a keyframe whatever happens: the oldest picture inside it was
   forced, or there is none and the new request cannot get lost.
   */
  predicate NextIsKeyframe(e: Sender.Encoder, lossless: bool) {
    if e.pictures == [] then lossless else e.pictures[0]
  }

  predicate SafeUngated(s: State, lossless: bool) {
    s.viewer.waiting || CaughtUp(s) || NextIsKeyframe(s.sender.encoder, lossless)
  }

  /** Every reconnect resets the gate, or is safe without; `lossless` runs also keep every request. */
  predicate Careful(s: State, steps: seq<Step>, lossless: bool)
    decreases |steps|
  {
    steps == [] ||
    (&& (lossless ==> KeepsRequests(steps[0]))
     && (steps[0] == Reconnect(false) ==> SafeUngated(s, lossless))
     && Careful(Next(s, steps[0]), steps[1..], lossless))
  }

  /** What the connection starts with can follow the frame of that index. */
  predicate Starts(sender: Sender.State, index: nat, lossless: bool) {
    || sender.ended || sender.awaiting || sender.encoder.made == index
    || (if sender.encoder.pictures == [] then lossless && sender.encoder.requested else sender.encoder.pictures[0])
  }

  /** An open gate means that the decoder can go on with the next frame. */
  predicate InStep(s: State, lossless: bool) {
    && s.taken <= |s.sent|
    && (!s.viewer.waiting ==>
          && s.viewer.codec.Some? && s.viewer.fed != []
          && var (codec, last) := s.viewer.fed[|s.viewer.fed| - 1];
             && codec == s.viewer.codec.value
             && (if s.taken > 0 then last == s.sent[s.taken - 1]
                 else if s.sent != [] then s.sent[0].keyframe || s.sent[0].index == last.index + 1
                 else Starts(s.sender, last.index, lossless)))
  }

  predicate Inv(s: State, lossless: bool) {
    Chained(s.sent) && Sender.UpToDate(s.sender, s.sent) && InStep(s, lossless) && Viewer.Decodable(s.viewer.fed)
  }

  lemma FedOneMore(fed: seq<(nat, Frame)>, codec: nat, frame: Frame)
    requires Viewer.Decodable(fed)
    requires frame.keyframe || (fed != [] && fed[|fed| - 1].0 == codec && frame.index == fed[|fed| - 1].1.index + 1)
    ensures Viewer.Decodable(fed + [(codec, frame)])
  {
    var fed' := fed + [(codec, frame)];
    forall i | 0 <= i < |fed'|
      ensures fed'[i].1.keyframe || (i > 0 && fed'[i - 1].0 == fed'[i].0 && fed'[i].1.index == fed'[i - 1].1.index + 1)
    {
      if i < |fed| {
        assert fed'[i] == fed[i] && (i > 0 ==> fed'[i - 1] == fed[i - 1]);
      }
    }
  }

  lemma DeliverOk(s: State, luck: Viewer.Luck, lossless: bool)
    requires Inv(s, lossless) && s.taken < |s.sent|
    ensures Inv(Next(s, Deliver(luck)), lossless)
  {
    var frame := s.sent[s.taken];
    if s.taken > 0 {
      assert Follows(s.sent[s.taken - 1], frame);
    }
    var e := Viewer.Ensured(s.viewer, luck.creation);
    if e.codec.Some? && (frame.keyframe || !e.waiting) {
      FedOneMore(s.viewer.fed, e.codec.value, frame);
    }
  }

  lemma TickStaysInStep(s: State, tick: Sender.Tick, lossless: bool)
    requires InStep(s, lossless) && (lossless ==> !tick.attempt.SendFailed?)
    ensures InStep(Next(s, HostTick(tick)), lossless)
  {
  }

  lemma TickOk(s: State, tick: Sender.Tick, lossless: bool)
    requires Inv(s, lossless) && (lossless ==> !tick.attempt.SendFailed?)
    ensures Inv(Next(s, HostTick(tick)), lossless)
  {
    Sender.TickKeepsChain(s.sender, tick, s.sent);
    TickStaysInStep(s, tick, lossless);
  }

  lemma StepOk(s: State, step: Step, lossless: bool)
    requires Inv(s, lossless) && (lossless ==> KeepsRequests(step))
    requires step == Reconnect(false) ==> SafeUngated(s, lossless)
    ensures Inv(Next(s, step), lossless)
  {
    match step
    case HostTick(tick) => TickOk(s, tick, lossless);
    case Deliver(luck) =>
      if s.taken < |s.sent| { DeliverOk(s, luck, lossless); }
    case SurfaceChange =>
    case Reconnect(_) =>
  }

  lemma {:induction false} RunOk(s: State, steps: seq<Step>, lossless: bool)
    requires Inv(s, lossless) && Careful(s, steps, lossless)
    ensures Inv(Run(s, steps), lossless)
    decreases |steps|
  {
    if steps != [] {
      StepOk(s, steps[0], lossless);
      RunOk(Next(s, steps[0]), steps[1..], lossless);
    }
  }

  /**
   End to end, under any pattern of lag, full queues, buffered and failed encodes, decoder errors, rebuilds
   and careful reconnects, no decoder is ever given a frame it cannot decode, and a gap in what the viewer
   receives is followed by a keyframe.
   */
  lemma NeverFedUndecodable(s: State, steps: seq<Step>, lossless: bool)
    requires Init(s) && Careful(s, steps, lossless)
    ensures var t := Run(s, steps);
            && Viewer.Decodable(t.viewer.fed)
            && forall i | 0 < i < |t.sent| && t.sent[i].sequence != t.sent[i - 1].sequence + 1 :: t.sent[i].keyframe
  {
    RunOk(s, steps, lossless);
  }

  // ---------------------------------------------------------------------
  // Reconnecting with an open gate
  // ---------------------------------------------------------------------

  /** Only gated reconnects; `lossless` runs also keep every request. */
  predicate Gated(steps: seq<Step>, lossless: bool) {
    forall step | step in steps :: step != Reconnect(false) && (lossless ==> KeepsRequests(step))
  }

  lemma {:induction false} GatedIsCareful(s: State, steps: seq<Step>, lossless: bool)
    requires Gated(steps, lossless)
    ensures Careful(s, steps, lossless)
    decreases |steps|
  {
    if steps != [] {
      assert steps[0] in steps && forall step | step in steps[1..] :: step in steps;
      GatedIsCareful(Next(s, steps[0]), steps[1..], lossless);
    }
  }

  /**
   Leaving the gate as it is on a reconnect is safe for all that follows exactly when, before the reconnect,
   the gate is waiting, or the decoder has the encoder's last output, or the encoder is bound to put out a
   keyframe next.
   */
  lemma UngatedReconnectIsSafeExactly(s: State, lossless: bool)
    requires Inv(s, lossless)
    ensures (forall steps | Gated(steps, lossless) ::
               Viewer.Decodable(Run(Next(s, Reconnect(false)), steps).viewer.fed))
       <==> SafeUngated(s, lossless)
  {
    if SafeUngated(s, lossless) {
      StepOk(s, Reconnect(false), lossless);
      forall steps | Gated(steps, lossless) ensures Viewer.Decodable(Run(Next(s, Reconnect(false)), steps).viewer.fed) {
        GatedIsCareful(Next(s, Reconnect(false)), steps, lossless);
        RunOk(Next(s, Reconnect(false)), steps, lossless);
      }
    } else {
      var steps := BreakAfter(s, lossless);
    }
  }

  const DELTA :=
    HostTick(Sender.Tick(false, false, Sender.NewPicture, Sender.Sent(Sender.Packet(false)), Sender.Accepted))

  const LOST := HostTick(Sender.Tick(false, false, Sender.NewPicture, Sender.SendFailed, Sender.Accepted))

  const HELD := HostTick(Sender.Tick(false, false, Sender.NewPicture, Sender.Sent(Sender.Nothing), Sender.Accepted))

  const FED := Deliver(Viewer.Luck(Viewer.Created, Viewer.Queued(false)))

  /** A delta that does not continue what the decoder has, first on a connection whose gate is open. */
  lemma FeedsUndecodable(s: State)
    requires s.taken == 0 && s.sent != [] && !s.sent[0].keyframe && !s.viewer.waiting && s.viewer.codec.Some?
    requires s.viewer.fed != [] && s.sent[0].index != s.viewer.fed[|s.viewer.fed| - 1].1.index + 1
    ensures !Viewer.Decodable(Next(s, FED).viewer.fed)
  {
    var fed' := Next(s, FED).viewer.fed;
    var i := |s.viewer.fed|;
    assert fed' == s.viewer.fed + [(s.viewer.codec.value, s.sent[0])];
    assert fed'[i] == (s.viewer.codec.value, s.sent[0]) && fed'[i - 1] == s.viewer.fed[i - 1];
  }

  lemma RunTwo(s: State, a: Step, b: Step)
    ensures Run(s, [a, b]) == Next(Next(s, a), b)
  {
    assert [a, b][1..] == [b] && [b][1..] == [];
    assert Run(Next(Next(s, a), b), []) == Next(Next(s, a), b);
    assert Run(Next(s, a), [b]) == Next(Next(s, a), b);
  }

  lemma BreakAfter(s: State, lossless: bool) returns (steps: seq<Step>)
    requires Inv(s, lossless) && !SafeUngated(s, lossless)
    ensures Gated(steps, lossless) && !Viewer.Decodable(Run(Next(s, Reconnect(false)), steps).viewer.fed)
  {
    var t := Next(s, Reconnect(false));
    if s.sender.encoder.pictures == [] {
      var u := Next(t, LOST);
      FeedsUndecodable(Next(u, DELTA));
      RunTwo(u, DELTA, FED);
      steps := [LOST, DELTA, FED];
      assert steps[1..] == [DELTA, FED];
    } else {
      FeedsUndecodable(Next(t, DELTA));
      RunTwo(t, DELTA, FED);
      steps := [DELTA, FED];
    }
  }

  /**
   And it goes wrong from a new encoder, after the one change of the surface that lets the viewer connect again,
   although every connection asks for a keyframe: the request of the new connection is lost with a picture that
   could not be sent in, or, in a lossless run, comes too late because the encoder still holds an older picture.
   */
  lemma UngatedReconnectBreaks(lossless: bool) returns (s: State, before: seq<Step>, after: seq<Step>)
    ensures Init(s) && s.sender.encoder == Sender.NEW_ENCODER
    ensures SurfaceChange in before && forall step | step in before :: !step.Reconnect? && KeepsRequests(step)
    ensures Gated(after, lossless)
    ensures !Viewer.Decodable(Run(Next(Run(s, before), Reconnect(false)), after).viewer.fed)
  {
    s, before := OneFrameBehind(lossless);
    GatedIsCareful(s, before, lossless);
    RunOk(s, before, lossless);
    after := BreakAfter(Run(s, before), lossless);
  }

  /** A run that leaves the decoder one output behind the encoder, with an older picture inside it if asked for. */
  lemma OneFrameBehind(held: bool) returns (s: State, steps: seq<Step>)
    ensures Init(s) && s.sender.encoder == Sender.NEW_ENCODER
    ensures SurfaceChange in steps && forall step | step in steps :: !step.Reconnect? && KeepsRequests(step)
    ensures var t := Run(s, steps);
            && t.viewer == Viewer.State(false, Some(0), 1, [(0, Frame(1, 1, true))])
            && t.sender.encoder.made == 2 && t.sender.encoder.pictures == if held then [false] else []
  {
    s := State(Sender.Connect(Sender.NEW_ENCODER), [], 0, Viewer.State(true, None, 0, []));
    var rest := [DELTA, FED, DELTA];
    assert Next(s, SurfaceChange) == s;
    if held {
      steps := [SurfaceChange, HELD] + rest;
      assert steps[1..] == [HELD] + rest && ([HELD] + rest)[1..] == rest;
      assert Next(s, HELD).sender.encoder == Sender.Encoder(0, false, [] + [true]) && [] + [true] == [true];
      FirstFrames(Next(s, HELD));
    } else {
      steps := [SurfaceChange] + rest;
      assert steps[1..] == rest;
      FirstFrames(s);
    }
  }

  /** The first output is the forced keyframe; it is fed, and a second output stays in the queue. */
  lemma FirstFrames(t: State)
    requires t.sender == Sender.State(t.sender.encoder, 0, false, 0, t.sender.pictured, false)
    requires t.sent == [] && t.taken == 0 && t.viewer == Viewer.State(true, None, 0, [])
    requires t.sender.encoder in {Sender.NEW_ENCODER, Sender.Encoder(0, false, [true])}
    ensures var u := Run(t, [DELTA, FED, DELTA]);
            && u.viewer == Viewer.State(false, Some(0), 1, [(0, Frame(1, 1, true))])
            && u.sender.encoder.made == 2
            && u.sender.encoder.pictures == if t.sender.encoder == Sender.NEW_ENCODER then [] else [false]
  {
    var a := Next(t, DELTA);
    var b := Next(a, FED);
    assert a.sent == [Frame(1, 1, true)];
    assert [DELTA, FED, DELTA][1..] == [FED, DELTA];
    RunTwo(a, FED, DELTA);
  }
}
