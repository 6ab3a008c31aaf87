// Writing changed tracks of the emulated drive back to the mounted file: the poll task against the
// drive hardware, which sets dirty flags at any moment.
module WriteBack {
  import opened Bytes

  // Tracks the poll looks at, dirty flags and half tracks of the hardware.
  const TRACKS: int := 42
  const FLAGS: int := 64
  const HALF_TRACKS: int := 84

  // Where the poll task stands.
  datatype Pc =
    | Idle
    | ClearAny
    | ClearSkip
    | ReadFlag(tr: nat)
    | ReadMotor(tr: nat)
    | ReadTrack(tr: nat)
    | ClearFlag(tr: nat)
    | Copy(tr: nat, buf: seq<Byte>)
    | Store(tr: nat, buf: seq<Byte>)

  datatype State = State(
    form: seq<Byte> -> seq<Byte>,  // what the file holds of a track: itself (G64), or its decoded sectors (D64)
    mem: seq<seq<Byte>>,   // the half tracks in drive memory
    file: seq<seq<Byte>>,  // their places in the mounted file
    flags: seq<bool>,
    any: bool,
    motor: bool,
    writing: bool,
    head: nat,             // half track under the head
    skip: nat,             // write_skip
    pc: Pc)

  datatype Action =
    | Motor(on: bool)
    | Mode(write: bool)
    | Seek(half: nat)
    | Put(pos: nat, value: Byte)

  // The sizes of memory, file and flags.
  predicate Sized(s: State) {
    |s.mem| == |s.file| == HALF_TRACKS && |s.flags| == FLAGS && s.head < 2 * FLAGS
  }

  // The loop counter and the read part of a track stay in their bounds.
  predicate InLoop(s: State)
    requires Sized(s)
  {
    match s.pc
    case Idle => true
    case ClearAny => true
    case ClearSkip => true
    case ReadFlag(tr) => tr <= TRACKS
    case ReadMotor(tr) => tr < TRACKS
    case ReadTrack(tr) => tr < TRACKS
    case ClearFlag(tr) => tr < TRACKS
    case Copy(tr, buf) => tr < TRACKS && |buf| <= |s.mem[2 * tr]|
    case Store(tr, buf) => tr < TRACKS && |buf| == |s.mem[2 * tr]|
  }

  predicate Shaped(s: State) {
    Sized(s) && InLoop(s)
  }

  // ---- Steps ----

  function Put1(track: seq<Byte>, pos: nat, value: Byte): (r: seq<Byte>)
    ensures |r| == |track|
  {
    if pos < |track| then track[pos := value] else track
  }

  // One step of the drive. Writing a byte sets the flag of the head's track and ANYDIRTY.
  function Drive(s: State, a: Action): State
    requires Shaped(s)
  {
    match a
    case Motor(on) => s.(motor := on)
    case Mode(write) => s.(writing := write)
    case Seek(half) => if half < 2 * FLAGS then s.(head := half) else s
    case Put(pos, value) =>
      if s.motor && s.writing then
        s.(flags := s.flags[s.head / 2 := true], any := true,
           mem := if s.head < HALF_TRACKS then s.mem[s.head := Put1(s.mem[s.head], pos, value)] else s.mem)
      else s
  }

  // Without motor or in reading mode nothing is written; else one byte of the half track under the head,
  // and no flag but that of its track is set.
  lemma DriveWrites(s: State, pos: nat, value: Byte, h: nat, t: nat)
    requires Shaped(s) && h < HALF_TRACKS && t < FLAGS
    ensures !(s.motor && s.writing) ==> Drive(s, Put(pos, value)) == s
    ensures s.motor && s.writing ==>
              var r := Drive(s, Put(pos, value));
              && |r.mem| == HALF_TRACKS && |r.flags| == FLAGS
              && r.any && r.flags[t] == (s.flags[t] || t == s.head / 2)
              && (if h == s.head && pos < |s.mem[h]| then r.mem[h] == s.mem[h][pos := value] else r.mem[h] == s.mem[h])
              && r.motor == s.motor && r.writing == s.writing && r.head == s.head && r.file == s.file
  {
  }

  // One access of the poll task to the registers, the drive memory or the file.
  function Poll(s: State): State
    requires Shaped(s)
  {
    match s.pc
    case Idle => if s.any || s.skip != 0 then s.(pc := ClearAny) else s
    case ClearAny => s.(any := s.any && s.skip != 0, pc := ClearSkip)
    case ClearSkip => s.(skip := 0, pc := ReadFlag(0))
    case ReadFlag(tr) =>
      if tr == TRACKS then s.(pc := Idle)
      else if s.flags[tr] then s.(pc := ReadMotor(tr)) else s.(pc := ReadFlag(tr + 1))
    case ReadMotor(tr) => if !s.motor then s.(pc := ClearFlag(tr)) else s.(pc := ReadTrack(tr))
    case ReadTrack(tr) =>
      if s.head / 2 != tr then s.(pc := ClearFlag(tr)) else s.(skip := s.skip + 1, pc := ReadFlag(tr + 1))
    case ClearFlag(tr) => s.(flags := s.flags[tr := false], pc := Copy(tr, []))
    case Copy(tr, buf) =>
      if |buf| < |s.mem[2 * tr]| then s.(pc := Copy(tr, buf + [s.mem[2 * tr][|buf|]])) else s.(pc := Store(tr, buf))
    case Store(tr, buf) => s.(file := s.file[2 * tr := s.form(buf)], pc := ReadFlag(tr + 1))
  }

  datatype Event = Task | Hardware(a: Action)

  function Next(s: State, e: Event): State
    requires Shaped(s)
  {
    match e
    case Task => Poll(s)
    case Hardware(a) => Drive(s, a)
  }

  lemma DriveIsShaped(s: State, a: Action)
    requires Shaped(s)
    ensures Shaped(Drive(s, a))
  {
    var r := Drive(s, a);
    assert Sized(r);
    assert r.pc == s.pc && forall h | 0 <= h < HALF_TRACKS :: |r.mem[h]| == |s.mem[h]|;
  }

  lemma PollIsSized(s: State)
    requires Shaped(s)
    ensures Sized(Poll(s))
  {
  }

  lemma PollIsShaped(s: State)
    requires Shaped(s)
    ensures Shaped(Poll(s))
  {
    PollIsSized(s);
    hide Sized;
  }

  lemma NextIsShaped(s: State, e: Event)
    requires Shaped(s)
    ensures Shaped(Next(s, e))
  {
    hide Shaped, Drive, Poll;
    match e
    case Task => PollIsShaped(s);
    case Hardware(a) => DriveIsShaped(s, a);
  }

  // The state after any interleaving of both.
  ghost function After(s: State, run: seq<Event>): (r: State)
    requires Shaped(s)
    ensures Shaped(r)
    decreases |run|
  {
    if run == [] then s
    else
      NextIsShaped(After(s, run[..|run| - 1]), run[|run| - 1]);
      Next(After(s, run[..|run| - 1]), run[|run| - 1])
  }

  // ---- The invariant ----

  predicate Saved(s: State, t: nat)
    requires Shaped(s) && t < TRACKS
  {
    s.file[2 * t] == s.form(s.mem[2 * t])
  }

  predicate InWork(s: State, t: nat) {
    (s.pc.Copy? || s.pc.Store?) && s.pc.tr == t
  }

  // A track is flagged, or in the file, or being written with nothing changed behind the part read.
  ghost predicate Safe(s: State, t: nat)
    requires Shaped(s) && t < TRACKS
  {
    s.flags[t] || (if InWork(s, t) then s.pc.buf <= s.mem[2 * t] else Saved(s, t))
  }

  ghost predicate NoneForgotten(s: State)
    requires Shaped(s)
  {
    forall t | 0 <= t < TRACKS :: Safe(s, t)
  }

  // The loop of the running poll still comes to track t.
  predicate Ahead(pc: Pc, t: nat) {
    match pc
    case Idle => false
    case ClearAny => false
    case ClearSkip => true
    case ReadFlag(tr) => tr <= t
    case ReadMotor(tr) => tr <= t
    case ReadTrack(tr) => tr <= t
    case ClearFlag(tr) => tr <= t
    case Copy(tr, _) => tr < t
    case Store(tr, _) => tr < t
  }

  // A set flag leaves ANYDIRTY or write_skip set, unless the running poll still comes to it.
  ghost predicate Announced(s: State)
    requires Shaped(s)
  {
    forall t | 0 <= t < TRACKS :: s.flags[t] ==> s.any || s.skip != 0 || Ahead(s.pc, t)
  }

  ghost predicate Inv(s: State) {
    Shaped(s) && NoneForgotten(s) && Announced(s)
  }

  // insert_disk: the memory holds what the file holds, the flags of the tracks and ANYDIRTY are clear.
  ghost predicate Mounted(s: State) {
    && Shaped(s) && s.pc == Idle && !s.any
    && (forall t | 0 <= t < TRACKS :: !s.flags[t] && s.file[2 * t] == s.form(s.mem[2 * t]))
  }

  lemma DriveKeepsInv(s: State, a: Action)
    requires Inv(s)
    ensures Inv(Drive(s, a))
  {
    DriveIsShaped(s, a);
    var r := Drive(s, a);
    forall t | 0 <= t < TRACKS ensures Safe(r, t) {
      assert Safe(s, t);
    }
  }

  lemma PollForgetsNone(s: State, t: nat)
    requires Shaped(s) && t < TRACKS && Shaped(Poll(s))
    requires Safe(s, t)
    ensures Safe(Poll(s), t)
  {
    if s.pc.Copy? {
      CopyForgetsNone(s, t);
    } else if s.pc.Store? {
      StoreForgetsNone(s, t);
    } else if s.pc.ClearFlag? {
      ClearForgetsNone(s, t);
    } else {
      LoopForgetsNone(s, t);
    }
  }

  lemma ClearForgetsNone(s: State, t: nat)
    requires Shaped(s) && t < TRACKS && Shaped(Poll(s)) && Safe(s, t) && s.pc.ClearFlag?
    ensures Safe(Poll(s), t)
  {
  }

  lemma CopyForgetsNone(s: State, t: nat)
    requires Shaped(s) && t < TRACKS && Shaped(Poll(s)) && Safe(s, t) && s.pc.Copy?
    ensures Safe(Poll(s), t)
  {
    var track := s.mem[2 * s.pc.tr];
    if |s.pc.buf| < |track| && s.pc.buf <= track {
      PrefixGrows(s.pc.buf, track);
    }
  }

  lemma StoreForgetsNone(s: State, t: nat)
    requires Shaped(s) && t < TRACKS && Shaped(Poll(s)) && Safe(s, t) && s.pc.Store?
    ensures Safe(Poll(s), t)
  {
    if s.pc.buf <= s.mem[2 * s.pc.tr] {
      assert s.pc.buf == s.mem[2 * s.pc.tr];
    }
  }

  lemma LoopForgetsNone(s: State, t: nat)
    requires Shaped(s) && t < TRACKS && Shaped(Poll(s)) && Safe(s, t)
    requires !s.pc.Copy? && !s.pc.Store? && !s.pc.ClearFlag?
    ensures Safe(Poll(s), t)
  {
  }

  lemma PrefixGrows(a: seq<Byte>, b: seq<Byte>)
    requires a <= b && |a| < |b|
    ensures a + [b[|a|]] <= b
  {
  }

  lemma PollAnnounces(s: State, t: nat)
    requires Shaped(s) && t < TRACKS && Shaped(Poll(s))
    requires s.flags[t] ==> s.any || s.skip != 0 || Ahead(s.pc, t)
    ensures Poll(s).flags[t] ==> Poll(s).any || Poll(s).skip != 0 || Ahead(Poll(s).pc, t)
  {
  }

  lemma PollKeepsInv(s: State)
    requires Inv(s)
    ensures Inv(Poll(s))
  {
    hide Poll, InLoop, Safe, Ahead;
    PollIsShaped(s);
    var r := Poll(s);
    forall t | 0 <= t < TRACKS ensures Safe(r, t) {
      PollForgetsNone(s, t);
    }
    forall t | 0 <= t < TRACKS ensures r.flags[t] ==> r.any || r.skip != 0 || Ahead(r.pc, t) {
      PollAnnounces(s, t);
    }
  }

  // No dirty track is ever forgotten, whatever the interleaving of poll and hardware.
  lemma {:induction false} RunKeepsInv(s: State, run: seq<Event>)
    requires Mounted(s) || Inv(s)
    ensures Inv(After(s, run))
    decreases |run|
  {
    hide Poll, Drive, NoneForgotten, Announced, Shaped;
    if run == [] {
      if Mounted(s) {
        MountedIsInv(s);
      }
    } else {
      var n := |run| - 1;
      RunKeepsInv(s, run[..n]);
      match run[n]
      case Task => PollKeepsInv(After(s, run[..n]));
      case Hardware(a) => DriveKeepsInv(After(s, run[..n]), a);
    }
  }

  lemma MountedIsInv(s: State)
    requires Mounted(s)
    ensures Inv(s)
  {
    forall t | 0 <= t < TRACKS ensures Safe(s, t) {
      assert s.file[2 * t] == s.form(s.mem[2 * t]);
    }
  }

  // Between polls with nothing announced the file holds every track.
  lemma QuietMeansSaved(s: State, run: seq<Event>, t: nat)
    requires Mounted(s) && t < TRACKS
    requires After(s, run).pc == Idle && !After(s, run).any && After(s, run).skip == 0
    ensures Saved(After(s, run), t)
  {
    hide Poll, Drive;
    RunKeepsInv(s, run);
    assert Safe(After(s, run), t);
  }

  // ---- One poll ----

  // Throughout the run the motor is off, or the head is away from track t.
  ghost predicate Throughout(s: State, run: seq<Event>, off: bool, t: nat)
    requires Shaped(s)
  {
    forall k | 0 <= k <= |run| :: Undisturbed(After(s, run[..k]), off, t)
  }

  predicate Undisturbed(s: State, off: bool, t: nat) {
    if off then !s.motor else s.head / 2 != t
  }

  // The running poll has dealt with track t or still will.
  predicate Served(s: State, off: bool, t: nat)
    requires Shaped(s) && t < TRACKS
  {
    && (off ==> !s.pc.ReadTrack?)
    && (s.pc.ClearAny? || Ahead(s.pc, t) || !s.flags[t])
  }

  lemma DriveKeepsServed(s: State, a: Action, off: bool, t: nat)
    requires Shaped(s) && t < TRACKS && Undisturbed(s, off, t) && Served(s, off, t) && Shaped(Drive(s, a))
    ensures Served(Drive(s, a), off, t)
  {
    hide Ahead, InLoop;
    assert Drive(s, a).pc == s.pc;
  }

  lemma PollKeepsServed(s: State, off: bool, t: nat)
    requires Shaped(s) && t < TRACKS && Undisturbed(s, off, t) && Served(s, off, t) && Shaped(Poll(s))
    ensures Served(Poll(s), off, t)
  {
    hide InLoop;
    if s.pc.ClearFlag? {
      ClearKeepsServed(s, off, t);
    } else {
      PollKeepsFlags(s);
      if s.pc.ReadFlag? || s.pc.ReadMotor? || s.pc.ReadTrack? {
        LoopKeepsServed(s, off, t);
      }
    }
  }

  lemma PollKeepsFlags(s: State)
    requires Shaped(s) && !s.pc.ClearFlag?
    ensures Poll(s).flags == s.flags
  {
  }

  lemma ClearKeepsServed(s: State, off: bool, t: nat)
    requires Shaped(s) && t < TRACKS && Served(s, off, t) && Shaped(Poll(s)) && s.pc.ClearFlag?
    ensures Served(Poll(s), off, t)
  {
  }

  lemma LoopKeepsServed(s: State, off: bool, t: nat)
    requires Shaped(s) && t < TRACKS && Undisturbed(s, off, t) && Served(s, off, t) && Shaped(Poll(s))
    requires s.pc.ReadFlag? || s.pc.ReadMotor? || s.pc.ReadTrack?
    ensures Served(Poll(s), off, t)
  {
    hide InLoop;
  }

  lemma {:induction false} RunStaysServed(s: State, run: seq<Event>, off: bool, t: nat)
    requires Shaped(s) && t < TRACKS && Throughout(s, run, off, t) && Served(s, off, t)
    ensures Served(After(s, run), off, t)
    decreases |run|
  {
    hide Served, Undisturbed, Poll, Drive, Shaped;
    if run != [] {
      var n := |run| - 1;
      forall k | 0 <= k <= n ensures Undisturbed(After(s, run[..n][..k]), off, t) {
        assert run[..n][..k] == run[..k];
      }
      RunStaysServed(s, run[..n], off, t);
      NextIsShaped(After(s, run[..n]), run[n]);
      match run[n]
      case Task => PollKeepsServed(After(s, run[..n]), off, t);
      case Hardware(a) => DriveKeepsServed(After(s, run[..n]), a, off, t);
    }
  }

  // A poll that starts and ends in the run leaves every changed track in the file if the motor is off
  // throughout, and with a running motor every track the head stays away from.
  lemma OnePollSaves(s: State, run: seq<Event>, off: bool, t: nat)
    requires Inv(s) && s.pc == Idle && t < TRACKS
    requires Throughout(s, [Task] + run, off, t) && After(s, [Task] + run).pc == Idle
    ensures Saved(After(s, [Task] + run), t) && !After(s, [Task] + run).flags[t]
  {
    hide Undisturbed, Poll, Drive;
    var all := [Task] + run;
    assert all[..1] == [Task];
    AfterTwo(s, [Task], run);
    var p := After(s, [Task]);
    assert p == Poll(s) by { assert [Task][..0] == []; assert After(s, []) == s; }
    FirstStepServes(s, off, t);
    forall k | 0 <= k <= |run| ensures Undisturbed(After(p, run[..k]), off, t) {
      AfterTwo(s, [Task], run[..k]);
      assert all[..k + 1] == [Task] + run[..k];
    }
    RunStaysServed(p, run, off, t);
    RunKeepsInv(s, all);
    assert Safe(After(s, all), t);
  }

  lemma FirstStepServes(s: State, off: bool, t: nat)
    requires Inv(s) && s.pc == Idle && t < TRACKS
    ensures Shaped(Poll(s)) && Served(Poll(s), off, t)
  {
    PollIsShaped(s);
  }

  lemma {:induction false} AfterTwo(s: State, a: seq<Event>, b: seq<Event>)
    requires Shaped(s)
    ensures After(s, a + b) == After(After(s, a), b)
    decreases |b|
  {
    hide Shaped, Next;
    if b == [] {
      assert a + b == a;
    } else {
      var n := |b| - 1;
      assert (a + b)[..|a| + n] == a + b[..n];
      AfterTwo(s, a, b[..n]);
    }
  }

  // ---- The track under the head of a running motor ----

  predicate Busy(s: State, t: nat) {
    s.motor && s.head / 2 == t
  }

  ghost predicate BusyThroughout(s: State, run: seq<Event>, t: nat)
    requires Shaped(s)
  {
    forall k | 0 <= k <= |run| :: Busy(After(s, run[..k]), t)
  }

  // The task has not taken up track t to write it.
  predicate HandsOff(pc: Pc, t: nat) {
    !((pc.ClearFlag? || pc.Copy? || pc.Store?) && pc.tr == t)
  }

  // A set flag of t will be met, or was met and counted.
  predicate Counted(s: State, t: nat)
    requires Shaped(s) && t < TRACKS
  {
    s.flags[t] && (s.pc.ClearAny? || Ahead(s.pc, t) || s.skip != 0)
  }

  lemma PollHandsOff(s: State, t: nat)
    requires Shaped(s) && t < TRACKS && Busy(s, t) && HandsOff(s.pc, t) && Shaped(Poll(s))
    ensures HandsOff(Poll(s).pc, t) && Poll(s).file[2 * t] == s.file[2 * t]
    ensures s.flags[t] ==> Poll(s).flags[t]
  {
    hide InLoop;
    PollPasses(s, t);
    if s.pc.Store? {
      StoreElsewhere(s, t);
    } else if s.pc.ClearFlag? {
      ClearElsewhere(s, t);
    } else {
      PollKeepsRest(s);
    }
    hide Poll;
  }

  lemma PollPasses(s: State, t: nat)
    requires Shaped(s) && t < TRACKS && Busy(s, t) && HandsOff(s.pc, t)
    ensures HandsOff(Poll(s).pc, t)
  {
    hide Sized, InLoop;
  }

  lemma StoreElsewhere(s: State, t: nat)
    requires Shaped(s) && t < TRACKS && HandsOff(s.pc, t) && s.pc.Store?
    ensures |Poll(s).file| == HALF_TRACKS && Poll(s).file[2 * t] == s.file[2 * t] && Poll(s).flags == s.flags
  {
  }

  lemma ClearElsewhere(s: State, t: nat)
    requires Shaped(s) && t < TRACKS && HandsOff(s.pc, t) && s.pc.ClearFlag?
    ensures |Poll(s).flags| == FLAGS && Poll(s).flags[t] == s.flags[t] && Poll(s).file == s.file
  {
  }

  lemma PollKeepsRest(s: State)
    requires Shaped(s) && !s.pc.Store? && !s.pc.ClearFlag?
    ensures Poll(s).file == s.file && Poll(s).flags == s.flags
  {
  }

  lemma PollCounts(s: State, t: nat)
    requires Shaped(s) && t < TRACKS && Busy(s, t) && HandsOff(s.pc, t) && Counted(s, t) && Shaped(Poll(s))
    ensures Counted(Poll(s), t)
  {
    PollHandsOff(s, t);
    hide InLoop, Sized, Shaped;
  }

  lemma DriveHandsOff(s: State, a: Action, t: nat)
    requires Shaped(s) && t < TRACKS && Shaped(Drive(s, a))
    ensures Drive(s, a).pc == s.pc && Drive(s, a).file == s.file && Drive(s, a).skip == s.skip
    ensures Counted(s, t) ==> Counted(Drive(s, a), t)
  {
    hide InLoop, Ahead;
  }

  // As long as the motor runs with the head on track t, no poll touches its place in the file, and a
  // flag of it stays set and announced.
  lemma {:induction false} RunHandsOff(s: State, run: seq<Event>, t: nat)
    requires Shaped(s) && t < TRACKS && BusyThroughout(s, run, t) && HandsOff(s.pc, t)
    ensures HandsOff(After(s, run).pc, t) && After(s, run).file[2 * t] == s.file[2 * t]
    ensures Counted(s, t) ==> Counted(After(s, run), t)
    decreases |run|
  {
    hide Shaped, Poll, Drive, Busy, HandsOff, Counted;
    if run != [] {
      var n := |run| - 1;
      forall k | 0 <= k <= n ensures Busy(After(s, run[..n][..k]), t) {
        assert run[..n][..k] == run[..k];
      }
      RunHandsOff(s, run[..n], t);
      NextIsShaped(After(s, run[..n]), run[n]);
      assert run[..n] == run[..n];
      match run[n]
      case Task =>
        PollHandsOff(After(s, run[..n]), t);
        if Counted(After(s, run[..n]), t) { PollCounts(After(s, run[..n]), t); }
      case Hardware(a) => DriveHandsOff(After(s, run[..n]), a, t);
    }
  }

  // A poll that starts and ends while the motor runs with the head on track t does not store it; if it
  // was flagged it still is, and write_skip is not zero.
  lemma BusyIsSkipped(s: State, run: seq<Event>, t: nat)
    requires Inv(s) && s.pc == Idle && t < TRACKS && BusyThroughout(s, [Task] + run, t)
    ensures After(s, [Task] + run).file[2 * t] == s.file[2 * t]
    ensures s.flags[t] ==> After(s, [Task] + run).flags[t]
    ensures s.flags[t] && After(s, [Task] + run).pc == Idle ==> After(s, [Task] + run).skip != 0
  {
    hide Busy, Poll, Drive;
    var all := [Task] + run;
    assert all[..1] == [Task];
    AfterTwo(s, [Task], run);
    var p := After(s, [Task]);
    assert p == Poll(s) by { assert [Task][..0] == []; assert After(s, []) == s; }
    FirstStepStarts(s, t);
    forall k | 0 <= k <= |run| ensures Busy(After(p, run[..k]), t) {
      AfterTwo(s, [Task], run[..k]);
      assert all[..k + 1] == [Task] + run[..k];
    }
    RunHandsOff(p, run, t);
  }

  lemma FirstStepStarts(s: State, t: nat)
    requires Inv(s) && s.pc == Idle && t < TRACKS
    ensures Shaped(Poll(s)) && HandsOff(Poll(s).pc, t) && Poll(s).file == s.file
    ensures s.flags[t] ==> Counted(Poll(s), t)
  {
    PollIsShaped(s);
  }

  // ---- What a poll leaves announced ----

  // A poll that the hardware does not disturb, with the motor off, leaves no flag and write_skip zero;
  // ANYDIRTY stays set only if write_skip was not zero before it.
  lemma QuietPoll(s: State, n: nat)
    requires Inv(s) && s.pc == Idle && !s.motor && n > 0 && (s.any || s.skip != 0)
    requires After(s, Tasked(n)).pc == Idle && forall k | 0 < k < n :: After(s, Tasked(k)).pc != Idle
    ensures var r := After(s, Tasked(n));
            r.skip == 0 && r.any == (s.any && s.skip != 0) && r.mem == s.mem && !r.motor &&
            forall t | 0 <= t < TRACKS :: !r.flags[t]
  {
    hide Poll, Saved, NoneForgotten, Announced, InLoop;
    assert Tasked(n) == [Task] + Tasked(n - 1);
    forall t | 0 <= t < TRACKS ensures !After(s, Tasked(n)).flags[t] {
      forall k | 0 <= k <= n ensures Undisturbed(After(s, Tasked(n)[..k]), true, t) {
        assert Tasked(n)[..k] == Tasked(k);
        TasksOnly(s, k);
      }
      OnePollSaves(s, Tasked(n - 1), true, t);
    }
    TasksOnly(s, n);
    SkipStaysZero(s, n);
  }

  ghost function Tasked(n: nat): (run: seq<Event>)
    ensures |run| == n
  {
    seq(n, _ => Task)
  }

  lemma PollKeepsMem(s: State)
    requires Shaped(s)
    ensures Poll(s).mem == s.mem && Poll(s).motor == s.motor
  {
  }

  // The task alone changes neither memory nor motor.
  lemma {:induction false} TasksOnly(s: State, n: nat)
    requires Shaped(s)
    ensures After(s, Tasked(n)).mem == s.mem && After(s, Tasked(n)).motor == s.motor
  {
    hide Shaped, Poll;
    if n > 0 {
      assert Tasked(n)[..n - 1] == Tasked(n - 1);
      TasksOnly(s, n - 1);
      PollKeepsMem(After(s, Tasked(n - 1)));
    } else {
      assert Tasked(0) == [];
    }
  }

  // What a poll that found these values has done to ANYDIRTY and write_skip where it stands.
  predicate Announcing(r: State, any: bool, skip: nat) {
    match r.pc
    case ClearAny => r.any == any && r.skip == skip
    case ClearSkip => r.any == (any && skip != 0) && r.skip == skip
    case ReadTrack(_) => false
    case _ => r.any == (any && skip != 0) && r.skip == 0
  }

  lemma AnnouncingStep(r: State, any: bool, skip: nat)
    requires Shaped(r) && !r.motor && r.pc != Idle && Announcing(r, any, skip)
    ensures Announcing(Poll(r), any, skip)
  {
    hide Sized, InLoop;
  }

  lemma AnnouncingStarts(s: State)
    requires Shaped(s) && s.pc == Idle && (s.any || s.skip != 0)
    ensures Announcing(Poll(s), s.any, s.skip)
  {
    hide Sized, InLoop;
  }

  lemma {:induction false} SkipStaysZero(s: State, n: nat)
    requires Shaped(s) && s.pc == Idle && !s.motor && n > 0 && (s.any || s.skip != 0)
    requires forall k | 0 < k < n :: After(s, Tasked(k)).pc != Idle
    ensures Announcing(After(s, Tasked(n)), s.any, s.skip)
  {
    hide Shaped, Poll, Announcing;
    assert Tasked(n)[..n - 1] == Tasked(n - 1);
    TasksOnly(s, n - 1);
    if n > 1 {
      SkipStaysZero(s, n - 1);
      AnnouncingStep(After(s, Tasked(n - 1)), s.any, s.skip);
    } else {
      assert Tasked(0) == [];
      AnnouncingStarts(s);
    }
  }

  // ---- Every poll ends ----

  // Steps the loop needs at most from track tr on, and the poll from where it stands.
  ghost function LoopSteps(mem: seq<seq<Byte>>, tr: nat): nat
    requires |mem| == HALF_TRACKS && tr <= TRACKS
    decreases TRACKS - tr
  {
    if tr == TRACKS then 1 else LoopSteps(mem, tr + 1) + |mem[2 * tr]| + 6
  }

  // The track from which the loop is still to run, and the steps before that.
  function NextTrack(pc: Pc): nat {
    match pc
    case Idle => TRACKS
    case ClearAny => 0
    case ClearSkip => 0
    case ReadFlag(tr) => tr
    case ReadMotor(tr) => tr + 1
    case ReadTrack(tr) => tr + 1
    case ClearFlag(tr) => tr + 1
    case Copy(tr, _) => tr + 1
    case Store(tr, _) => tr + 1
  }

  function Before(s: State): nat
    requires Shaped(s)
  {
    match s.pc
    case Idle => 0
    case ClearAny => 2
    case ClearSkip => 1
    case ReadFlag(_) => 0
    case ReadMotor(tr) => |s.mem[2 * tr]| + 5
    case ReadTrack(tr) => |s.mem[2 * tr]| + 4
    case ClearFlag(tr) => |s.mem[2 * tr]| + 3
    case Copy(tr, buf) => |s.mem[2 * tr]| - |buf| + 2
    case Store(tr, _) => 1
  }

  ghost function StepsLeft(s: State): nat
    requires Shaped(s)
  {
    if s.pc == Idle then 0 else LoopSteps(s.mem, NextTrack(s.pc)) + Before(s)
  }

  lemma {:induction false} LoopStepsByLength(a: seq<seq<Byte>>, b: seq<seq<Byte>>, tr: nat)
    requires |a| == |b| == HALF_TRACKS && tr <= TRACKS
    requires forall h | 0 <= h < HALF_TRACKS :: |a[h]| == |b[h]|
    ensures LoopSteps(a, tr) == LoopSteps(b, tr)
    decreases TRACKS - tr
  {
    if tr < TRACKS {
      LoopStepsByLength(a, b, tr + 1);
    }
  }

  lemma DriveKeepsSteps(s: State, a: Action)
    requires Shaped(s) && Shaped(Drive(s, a))
    ensures StepsLeft(Drive(s, a)) == StepsLeft(s)
  {
    hide LoopSteps;
    var r := Drive(s, a);
    DriveKeepsLengths(s, a);
    hide Drive;
    if s.pc != Idle {
      LoopStepsByLength(s.mem, r.mem, NextTrack(s.pc));
    }
  }

  lemma DriveKeepsLengths(s: State, a: Action)
    requires Shaped(s)
    ensures Drive(s, a).pc == s.pc && |Drive(s, a).mem| == HALF_TRACKS
    ensures forall h | 0 <= h < HALF_TRACKS :: |Drive(s, a).mem[h]| == |s.mem[h]|
  {
  }

  lemma PollTakesAStep(s: State)
    requires Shaped(s) && s.pc != Idle && Shaped(Poll(s))
    ensures StepsLeft(Poll(s)) < StepsLeft(s)
  {
    hide LoopSteps;
    if s.pc.ReadFlag? {
      LoopStepsUnfold(s.mem, s.pc.tr);
    }
    hide Sized;
  }

  lemma LoopStepsUnfold(mem: seq<seq<Byte>>, tr: nat)
    requires |mem| == HALF_TRACKS && tr <= TRACKS
    ensures LoopSteps(mem, tr) == if tr == TRACKS then 1 else LoopSteps(mem, tr + 1) + |mem[2 * tr]| + 6
  {
  }

  ghost function Tasks(run: seq<Event>): nat {
    if run == [] then 0 else Tasks(run[..|run| - 1]) + (if run[|run| - 1] == Task then 1 else 0)
  }

  // Whatever the drive does in between, a started poll comes to its end within its number of steps.
  lemma {:induction false} PollEnds(s: State, run: seq<Event>)
    requires Shaped(s) && Tasks(run) >= StepsLeft(s)
    ensures exists k :: 0 <= k <= |run| && After(s, run[..k]).pc == Idle
  {
    if forall k | 0 <= k <= |run| :: After(s, run[..k]).pc != Idle {
      assert run[..|run|] == run;
      PollCountsDown(s, run, |run|);
    }
  }

  lemma {:induction false} PollCountsDown(s: State, run: seq<Event>, n: nat)
    requires Shaped(s) && n <= |run| && forall k | 0 <= k <= |run| :: After(s, run[..k]).pc != Idle
    ensures StepsLeft(After(s, run[..n])) + Tasks(run[..n]) <= StepsLeft(s)
    ensures StepsLeft(After(s, run[..n])) > 0
  {
    hide Shaped, Poll, Drive;
    if n > 0 {
      PollCountsDown(s, run, n - 1);
      var r := After(s, run[..n - 1]);
      assert run[..n][..n - 1] == run[..n - 1];
      NextIsShaped(r, run[n - 1]);
      match run[n - 1]
      case Task => PollTakesAStep(r);
      case Hardware(a) => DriveKeepsSteps(r, a);
    } else {
      assert run[..0] == [];
    }
    NotIdleHasSteps(After(s, run[..n]));
  }

  lemma NotIdleHasSteps(s: State)
    requires Shaped(s) && s.pc != Idle
    ensures StepsLeft(s) > 0
  {
    LoopStepsUnfold(s.mem, NextTrack(s.pc));
  }

  // ---- What the protocol does not cover ----

  // Powering the drive clears ANYDIRTY: between polls this keeps the invariant if and only if no
  // flag is set or write_skip still announces them.
  lemma PowerMayForget(s: State)
    requires Inv(s) && s.pc == Idle
    ensures Inv(s.(any := false)) <==> s.skip != 0 || forall t | 0 <= t < TRACKS :: !s.flags[t]
  {
    var r := s.(any := false);
    assert Shaped(r) && forall t | 0 <= t < TRACKS :: Safe(s, t) && Safe(r, t) == Safe(s, t);
  }

  // A mounted disk of one byte a track, and the drive writing another one on its first track.
  function Blank(): State {
    State(x => x, seq(HALF_TRACKS, _ => [0]), seq(HALF_TRACKS, _ => [0]), seq(FLAGS, _ => false),
          false, false, false, 0, 0, Idle)
  }

  const WRITING: seq<Event> := [Hardware(Motor(true)), Hardware(Mode(true)), Hardware(Put(0, 1))]

  lemma BlankWritten()
    ensures |Blank().mem| == |Blank().file| == 84 && |Blank().flags| == 64 && TRACKS == 42
    ensures var s := Blank();
            Mounted(s) && After(s, WRITING) ==
              s.(motor := true, writing := true, any := true, flags := s.flags[0 := true], mem := s.mem[0 := [1]])
  {
    var s := Blank();
    assert WRITING[..2][..1] == WRITING[..1] && WRITING[..1][..0] == [];
    assert After(s, WRITING[..1]) == s.(motor := true);
    assert After(s, WRITING[..2]) == s.(motor := true, writing := true);
    assert WRITING[..|WRITING| - 1] == WRITING[..2] && Put1([0], 0, 1) == [1];
  }

  // Power forgets this byte: the next poll does nothing, and the file does not hold it.
  lemma PowerForgets()
    ensures Mounted(Blank()) && Inv(After(Blank(), WRITING)) && After(Blank(), WRITING).pc == Idle
    ensures var r := After(Blank(), WRITING).(any := false);
            !Inv(r) && Shaped(r) && Poll(r) == r && !Saved(r, 0)
  {
    hide After;
    BlankWritten();
    RunKeepsInv(Blank(), WRITING);
    var r := After(Blank(), WRITING).(any := false);
    assert r.flags[0] && r.mem[0] == [1] && r.file[0] == [0] && r.form([1]) == [1];
  }

  lemma PollKeepsOddHalf(s: State, h: nat)
    requires Shaped(s) && h < HALF_TRACKS && h % 2 == 1
    ensures |Poll(s).file| == HALF_TRACKS && Poll(s).file[h] == s.file[h]
  {
    PollIsSized(s);
  }

  // A byte written on an odd half track sets the flag of the even one below it, but no run ever stores it.
  lemma {:induction false} RunKeepsOddHalf(s: State, run: seq<Event>, h: nat)
    requires Shaped(s) && h < HALF_TRACKS && h % 2 == 1
    ensures |After(s, run).file| == HALF_TRACKS && After(s, run).file[h] == s.file[h]
    decreases |run|
  {
    hide Poll;
    if run != [] {
      var n := |run| - 1;
      RunKeepsOddHalf(s, run[..n], h);
      if run[n] == Task {
        PollKeepsOddHalf(After(s, run[..n]), h);
      }
    }
  }

  // And a poll clears the flag.
  lemma OddHalfIsLost(s: State, run: seq<Event>, off: bool, h: nat)
    requires Inv(s) && s.pc == Idle && h < HALF_TRACKS && h % 2 == 1
    requires Throughout(s, [Task] + run, off, h / 2) && After(s, [Task] + run).pc == Idle
    ensures !After(s, [Task] + run).flags[h / 2] && After(s, [Task] + run).file[h] == s.file[h]
  {
    OnePollSaves(s, run, off, h / 2);
    RunKeepsOddHalf(s, [Task] + run, h);
  }
}
