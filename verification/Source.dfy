/** The source's main loop (source.rs): which frame a data tick produces, and the state that decides it.
    `Src` is that state as a value and `DataTick`, `Poll`, `Reopen` its transitions; the class `Source` is
    the code over its buffers, proved to perform them. */
module Source {
  import opened Options
  import opened Bytes
  import opened Wire
  import opened Irsdk
  import opened XorDelta

  /** Command-line settings that matter to the protocol. */
  datatype Config = Config(noDelta: bool, keyframeInterval: u16)

  datatype Src = Src(
    prev: seq<byte>,            // prev_varbuf
    tickCounter: u32,
    lastTick: i32,
    lastSessionUpdate: i32,
    pendingResync: bool,
    supportsDelta: bool,        // target_supports_delta
    gotData: bool,
    fullDue: bool)              // last_full_frame was set back by the full interval

  /** A message for the target before compression. */
  datatype Frame = Frame(bufOffset: u32, payload: seq<byte>)

  /** What one tick reads from the live map: when it selects the frame, while it copies, and when it reads the
      tickCount again. The game writes concurrently, so the three may differ. */
  datatype Reading = Reading(select: seq<byte>, copy: seq<byte>, after: seq<byte>)

  predicate Readable(rd: Reading) {
    && |rd.select| == |rd.copy| == |rd.after| <= MAX_TELEMETRY_SIZE
    && OffsetsNonNegative(rd.select)
  }

  predicate ValidSrc(s: Src) {
    |s.prev| == MAX_TELEMETRY_SIZE
  }

  function Initial(): (s: Src)
    ensures ValidSrc(s)
  {
    Src(Zeros(MAX_TELEMETRY_SIZE), 0, -1, -1, false, false, false, false)
  }

  /** The `sessionInfoUpdate` counter, 0 when the map is too short to have one. */
  function SessionUpdate(d: seq<byte>): i32 {
    if |d| < 16 then 0 else I32At(d, 12)
  }

  // ---------- frames ----------

  /** The first `e` bytes with the status field [4..8] zeroed. */
  function WithoutStatus(d: seq<byte>, e: nat): (p: seq<byte>)
    requires e <= |d|
    ensures |p| == e
  {
    seq(e, k requires 0 <= k < e => if 4 <= k < 8 then 0 else d[k])
  }

  function SessionFrame(rd: Reading): Frame
    requires Readable(rd)
  {
    Frame(U32_MAX, WithoutStatus(rd.copy, PrefixEnd(rd.select)))
  }

  /** `irsdk_header || varBuf`, as copied. */
  function Staged(rd: Reading, slot: Slot): (p: seq<byte>)
    requires Readable(rd) && IRSDK_HEADER_SIZE <= |rd.copy| && slot.off + slot.len <= |rd.copy|
    ensures |p| == IRSDK_HEADER_SIZE + slot.len
  {
    rd.copy[..IRSDK_HEADER_SIZE] + rd.copy[slot.off..slot.off + slot.len]
  }

  predicate UseDelta(cfg: Config, s: Src) {
    !cfg.noDelta && s.supportsDelta && cfg.keyframeInterval > 0 && s.tickCounter % cfg.keyframeInterval != 0
  }

  predicate IsSession(f: Frame) {
    f.bufOffset == U32_MAX
  }

  predicate IsDelta(f: Frame) {
    !IsSession(f) && HasDeltaBit(f.bufOffset)
  }

  predicate IsKeyframe(f: Frame) {
    !IsSession(f) && !HasDeltaBit(f.bufOffset)
  }

  // ---------- transitions ----------

  function Started(s: Src): Src {
    if s.gotData then s else s.(gotData := true, fullDue := true)
  }

  /** A session-info frame is due whatever the slot table says. */
  predicate SessionDue(s: Src, rd: Reading, elapsed: bool) {
    SessionUpdate(rd.select) != s.lastSessionUpdate || elapsed || s.fullDue || s.pendingResync
  }

  function SendSession(s: Src, rd: Reading): (Src, Option<Frame>)
    requires Readable(rd)
  {
    (s.(lastSessionUpdate := SessionUpdate(rd.select), fullDue := false, pendingResync := false,
        tickCounter := 0, lastTick := -1),
     Some(SessionFrame(rd)))
  }

  /** The partial frame for a slot, or nothing when it is too large, torn, or already sent. */
  function SendPartial(cfg: Config, s: Src, rd: Reading, slot: Slot): (r: (Src, Option<Frame>))
    requires ValidSrc(s) && Readable(rd) && ActiveSlot(rd.select) == Some(slot)
    ensures ValidSrc(r.0)
  {
    var full := IRSDK_HEADER_SIZE + slot.len;
    if full > MAX_TELEMETRY_SIZE || I32At(rd.after, slot.tickField) != slot.tick
      || slot.tick == s.lastTick then (s, None)
    else
      var staged := Staged(rd, slot);
      (s.(lastTick := slot.tick, tickCounter := (s.tickCounter + 1) % 0x1_0000_0000, prev := Splice(s.prev, 0, staged)),
       Some(if UseDelta(cfg, s) then Frame(WithDeltaBit(slot.off), Xor(staged, s.prev[..full]))
            else Frame(slot.off, staged)))
  }

  /** One data tick. `elapsed` tells whether the full-frame interval is over. */
  function DataTick(cfg: Config, s: Src, rd: Reading, elapsed: bool): (r: (Src, Option<Frame>))
    requires ValidSrc(s) && Readable(rd)
    ensures ValidSrc(r.0)
  {
    var s1 := Started(s);
    if SessionDue(s1, rd, elapsed) then SendSession(s1, rd)
    else match ActiveSlot(rd.select)
         case Some(slot) => SendPartial(cfg, s1, rd, slot)
         case None => SendSession(s1, rd)
  }

  /** `recv_from` into a zeroed two-byte buffer: a resync request with the target's capabilities, if any came. */
  function Poll(cfg: Config, s: Src, cap: Option<seq<byte>>): Src {
    if cap.None? then s
    else s.(pendingResync := true,
            supportsDelta := if cfg.noDelta then s.supportsDelta else Announces(cap.value))
  }

  /** Byte 1, bit 0; a one-byte packet leaves byte 1 at zero. */
  predicate Announces(cap: seq<byte>) {
    |cap| >= 2 && cap[1] as int % 2 == 1
  }

  /** Reconnecting to the game. `prev` and the target's capability are kept. */
  function Reopen(s: Src): Src {
    s.(gotData := false, lastSessionUpdate := -1, fullDue := true, tickCounter := 0, lastTick := -1)
  }

  /** One iteration of the loop. */
  datatype Event =
    | Tick(rd: Reading, elapsed: bool, cap: Option<seq<byte>>)
    | Quiet(cap: Option<seq<byte>>, reopen: bool)

  predicate Possible(e: Event) {
    e.Tick? ==> Readable(e.rd)
  }

  /** A tick that sends nothing goes back to waiting without polling. */
  function Step(cfg: Config, s: Src, e: Event): (r: (Src, Option<Frame>))
    requires ValidSrc(s) && Possible(e)
    ensures ValidSrc(r.0)
  {
    match e
    case Tick(rd, elapsed, cap) =>
      var (s1, frame) := DataTick(cfg, s, rd, elapsed);
      (if frame.Some? then Poll(cfg, s1, cap) else s1, frame)
    case Quiet(cap, reopen) =>
      var s1 := Poll(cfg, s, cap);
      (if reopen then Reopen(s1) else s1, None)
  }

  // ---------- the code ----------

  class Source {
    const cfg: Config
    const little: bool               // byte order of the machine
    const partialStaging: array<byte>
    const prevVarbuf: array<byte>
    const deltaBuf: array<byte>
    var tickCounter: u32
    var lastTick: i32
    var lastSessionUpdate: i32
    var pendingResync: bool
    var supportsDelta: bool
    var gotData: bool
    var fullDue: bool

    ghost function View(): Src
      reads this, prevVarbuf
    {
      Src(prevVarbuf[..], tickCounter, lastTick, lastSessionUpdate, pendingResync, supportsDelta, gotData, fullDue)
    }

    ghost predicate Valid() {
      && partialStaging.Length == prevVarbuf.Length == deltaBuf.Length == MAX_TELEMETRY_SIZE
      && partialStaging != prevVarbuf && partialStaging != deltaBuf && prevVarbuf != deltaBuf
    }

    constructor (cfg: Config, little: bool)
      ensures Valid() && View() == Initial() && this.cfg == cfg
      ensures fresh(partialStaging) && fresh(prevVarbuf) && fresh(deltaBuf)
    {
      this.cfg := cfg;
      this.little := little;
      partialStaging := new byte[MAX_TELEMETRY_SIZE](_ => 0);
      prevVarbuf := new byte[MAX_TELEMETRY_SIZE](_ => 0);
      deltaBuf := new byte[MAX_TELEMETRY_SIZE](_ => 0);
      tickCounter, lastTick, lastSessionUpdate := 0, -1, -1;
      pendingResync, supportsDelta, gotData, fullDue := false, false, false, false;
      new;
      assert prevVarbuf[..] == Zeros(MAX_TELEMETRY_SIZE);
    }

    /** Put `d` at `off` into the staging buffer. */
    method Stage(off: nat, d: seq<byte>)
      requires Valid() && off + |d| <= MAX_TELEMETRY_SIZE
      modifies partialStaging
      ensures partialStaging[..] == Splice(old(partialStaging[..]), off, d)
    {
      forall k | 0 <= k < |d| {
        partialStaging[off + k] := d[k];
      }
    }

    method SessionInfo(rd: Reading) returns (payload: seq<byte>)
      requires Valid() && Readable(rd)
      modifies this`tickCounter, this`lastTick, partialStaging
      ensures tickCounter == 0 && lastTick == -1
      ensures payload == SessionFrame(rd).payload
    {
      var prefixEnd := SessionInfoEnd(rd.select);
      Stage(0, rd.copy[..prefixEnd]);
      Stage(4, [0, 0, 0, 0]);
      tickCounter := 0;
      lastTick := -1;
      payload := partialStaging[..prefixEnd];
      assert payload == WithoutStatus(rd.copy, prefixEnd);
    }

    /** Make the staged frame the front of the previous frame; what lies behind it stays. */
    method Remember(full: nat)
      requires Valid() && full <= MAX_TELEMETRY_SIZE
      modifies prevVarbuf
      ensures prevVarbuf[..] == Splice(old(prevVarbuf[..]), 0, partialStaging[..full])
    {
      forall k | 0 <= k < full {
        prevVarbuf[k] := partialStaging[k];
      }
    }

    method StageFrame(rd: Reading, slot: Slot)
      requires Valid() && Readable(rd) && ActiveSlot(rd.select) == Some(slot)
      requires IRSDK_HEADER_SIZE + slot.len <= MAX_TELEMETRY_SIZE
      modifies partialStaging
      ensures partialStaging[..IRSDK_HEADER_SIZE + slot.len] == Staged(rd, slot)
    {
      Stage(0, rd.copy[..IRSDK_HEADER_SIZE]);
      Stage(IRSDK_HEADER_SIZE, rd.copy[slot.off..slot.off + slot.len]);
    }

    /** The delta or the keyframe for what is staged. */
    method Encoded(off: u32, full: nat) returns (frame: Frame)
      requires Valid() && full <= MAX_TELEMETRY_SIZE
      modifies deltaBuf
      ensures frame == if UseDelta(cfg, View())
                       then Frame(WithDeltaBit(off), Xor(partialStaging[..full], prevVarbuf[..][..full]))
                       else Frame(off, partialStaging[..full])
    {
      var useDelta := !cfg.noDelta && supportsDelta && cfg.keyframeInterval > 0
                      && tickCounter % cfg.keyframeInterval != 0;
      if useDelta {
        XorInto(little, partialStaging[..full], prevVarbuf[..full], deltaBuf);
        assert prevVarbuf[..full] == prevVarbuf[..][..full];
        frame := Frame(WithDeltaBit(off), deltaBuf[..full]);
      } else {
        frame := Frame(off, partialStaging[..full]);
      }
    }

    method Partial(rd: Reading, slot: Slot) returns (frame: Option<Frame>)
      requires Valid() && Readable(rd) && ActiveSlot(rd.select) == Some(slot)
      modifies this`tickCounter, this`lastTick, partialStaging, prevVarbuf, deltaBuf
      ensures (View(), frame) == SendPartial(cfg, old(View()), rd, slot)
    {
      var fullLen := IRSDK_HEADER_SIZE + slot.len;
      if fullLen > partialStaging.Length {
        return None;
      }
      StageFrame(rd, slot);
      var tickAfter := I32At(rd.after, slot.tickField);
      if tickAfter != slot.tick {
        return None;
      }
      if slot.tick == lastTick {
        return None;
      }
      lastTick := slot.tick;
      var f := Encoded(slot.off, fullLen);
      frame := Some(f);
      Remember(fullLen);
      tickCounter := (tickCounter + 1) % 0x1_0000_0000;
    }

    method OnData(rd: Reading, elapsed: bool) returns (frame: Option<Frame>)
      requires Valid() && Readable(rd)
      modifies this, partialStaging, prevVarbuf, deltaBuf
      ensures (View(), frame) == DataTick(cfg, old(View()), rd, elapsed)
    {
      if !gotData {
        gotData := true;
        fullDue := true;
      }
      var forceFull := elapsed || fullDue || pendingResync;
      var sessionUpdate := if |rd.select| < 16 then 0 else I32At(rd.select, 12);
      if sessionUpdate != lastSessionUpdate || forceFull {
        lastSessionUpdate := sessionUpdate;
        fullDue := false;
        pendingResync := false;
        var payload := SessionInfo(rd);
        return Some(Frame(U32_MAX, payload));
      }
      var active := ActiveVarBuf(rd.select);
      match active {
        case Some(slot) =>
          frame := Partial(rd, slot);
        case None =>
          fullDue := false;
          pendingResync := false;
          var payload := SessionInfo(rd);
          frame := Some(Frame(U32_MAX, payload));
      }
    }

    method OnPacket(cap: Option<seq<byte>>)
      modifies this
      ensures View() == Poll(cfg, old(View()), cap)
    {
      if cap.Some? {
        pendingResync := true;
        if !cfg.noDelta {
          supportsDelta := |cap.value| >= 2 && cap.value[1] as int % 2 == 1;
        }
      }
    }

    method OnReopen()
      modifies this
      ensures View() == Reopen(old(View()))
    {
      gotData := false;
      lastSessionUpdate := -1;
      fullDue := true;
      tickCounter := 0;
      lastTick := -1;
    }
  }
}
