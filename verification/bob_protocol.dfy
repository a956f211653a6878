/** The bob manager's calls as one checked step. Each call is accepted
    exactly when the documented protocol allows it; otherwise the step
    reports which rule the call breaks instead of corrupting memory as the
    C code would. Runs of calls and the properties that span several calls
    are stated here. */
module BobProtocol {
  import opened Bytes
  import opened Wrappers
  import BobManager

  type Manager = BobManager.Manager
  type BobId = BobManager.BobId

  /** One call into the manager, with its arguments. The blitter's idleness
      at the time of the call is an input of `Push` and `ProcessNext`. */
  datatype Call =
    | Init(width: UWord, height: UWord, undrawRequired: bool,
           frame: BobManager.DataRef, mask: BobManager.DataRef, x: UWord, y: UWord)
    | ReallocateBgBuffers
    | SetFrame(id: BobId, frame: BobManager.DataRef, mask: BobManager.DataRef)
    | SetWidth(id: BobId, width: UWord)
    | SetHeight(id: BobId, height: UWord)
    | SetPos(id: BobId, pos: BobManager.Coord)
    | Begin
    | Push(id: BobId, idle: bool)
    | ProcessNext(idle: bool)
    | PushingDone
    | End
    | DiscardUndraw

  datatype Violation =
    /** bobInit or bobReallocateBgBuffers after bobReallocateBgBuffers. */
    | RegistrationIsClosed
    /** A frame begun before the background buffers are allocated. */
    | BuffersNotAllocated
    /** bobBegin or bobDiscardUndraw while a frame is open. */
    | FrameIsOpen
    /** bobPush, bobPushingDone or bobEnd outside a frame. */
    | NoFrameOpen
    /** bobPush or bobPushingDone after bobPushingDone. */
    | PushingIsDone
    /** A bob that was never registered. */
    | UnknownBob
    /** A change to a bob pushed this frame and not drawn yet. */
    | BobIsBusy
    /** A size beyond the one given to bobInit. */
    | CapacityExceeded

  /** The protocol rule a call breaks in state `m`, if any. */
  function Check(m: Manager, c: Call): Option<Violation>
  {
    match c
    case Init(_, _, _, _, _, _, _) =>
      if BobManager.RegistrationClosed(m) then Some(RegistrationIsClosed) else None
    case ReallocateBgBuffers =>
      if BobManager.RegistrationClosed(m) then Some(RegistrationIsClosed) else None
    case SetFrame(id, _, _) => CheckClientWrite(m, id)
    case SetWidth(id, width) =>
      if CheckClientWrite(m, id).Some? then CheckClientWrite(m, id)
      else if width > m.bobs[id].originalWidth then Some(CapacityExceeded)
      else None
    case SetHeight(id, height) =>
      if CheckClientWrite(m, id).Some? then CheckClientWrite(m, id)
      else if height > m.bobs[id].originalHeight then Some(CapacityExceeded)
      else None
    case SetPos(id, _) => CheckClientWrite(m, id)
    case Begin =>
      if m.phase.Registering? then Some(BuffersNotAllocated)
      else if BobManager.InFrame(m) then Some(FrameIsOpen)
      else None
    case Push(id, _) =>
      if m.phase.Drawing? then Some(PushingIsDone)
      else if !m.phase.Pushing? then Some(NoFrameOpen)
      else if id >= |m.bobs| then Some(UnknownBob)
      else None
    case ProcessNext(_) => None
    case PushingDone =>
      if m.phase.Drawing? then Some(PushingIsDone)
      else if !m.phase.Pushing? then Some(NoFrameOpen)
      else None
    case End =>
      if !BobManager.InFrame(m) then Some(NoFrameOpen) else None
    case DiscardUndraw =>
      if BobManager.InFrame(m) then Some(FrameIsOpen) else None
  }

  /** The rule a client write to bob `id` breaks, if any. */
  function CheckClientWrite(m: Manager, id: BobId): (v: Option<Violation>)
    ensures v.None? <==> id < |m.bobs| && !BobManager.Busy(m, id)
  {
    if id >= |m.bobs| then Some(UnknownBob)
    else if BobManager.Busy(m, id) then Some(BobIsBusy)
    else None
  }

  /** Performs one call. Every accepted call keeps the manager's invariant,
      in particular the capacity of every bob. */
  function Step(m: Manager, c: Call): (r: Result<Manager, Violation>)
    requires BobManager.Inv(m)
    ensures r.Failure? <==> Check(m, c).Some?
    ensures r.Failure? ==> r.error == Check(m, c).value
    ensures r.Success? ==> BobManager.Inv(r.value)
  {
    var v := Check(m, c);
    if v.Some? then Failure(v.value)
    else if c.Init? || c.ReallocateBgBuffers? then Success(Register(m, c))
    else if IsClientWrite(c) then Success(ClientWrite(m, c))
    else Success(FrameCall(m, c))
  }

  /** The registration calls, accepted before bobReallocateBgBuffers. */
  function Register(m: Manager, c: Call): (r: Manager)
    requires BobManager.Inv(m) && Check(m, c).None?
    requires c.Init? || c.ReallocateBgBuffers?
    ensures BobManager.Inv(r)
  {
    match c
    case Init(w, h, u, f, k, x, y) => BobManager.BobInit(m, w, h, u, f, k, x, y).0
    case ReallocateBgBuffers => BobManager.ReallocateBgBuffers(m)
  }

  /** The client writes to a bob that is not busy. */
  function ClientWrite(m: Manager, c: Call): (r: Manager)
    requires BobManager.Inv(m) && Check(m, c).None? && IsClientWrite(c)
    ensures BobManager.Inv(r)
    ensures r.phase == m.phase && r.pending == m.pending
  {
    match c
    case SetFrame(id, f, k) => BobManager.SetFrame(m, id, f, k)
    case SetWidth(id, w) => BobManager.SetWidth(m, id, w)
    case SetHeight(id, h) => BobManager.SetHeight(m, id, h)
    case SetPos(id, p) => BobManager.SetPos(m, id, p)
  }

  /** The per-frame calls. */
  function FrameCall(m: Manager, c: Call): (r: Manager)
    requires BobManager.Inv(m) && Check(m, c).None?
    requires !c.Init? && !c.ReallocateBgBuffers? && !IsClientWrite(c)
    ensures BobManager.Inv(r)
  {
    match c
    case Begin => BobManager.Begin(m)
    case Push(id, idle) => BobManager.Push(m, id, idle)
    case ProcessNext(idle) => BobManager.ProcessNext(m, idle).0
    case PushingDone => BobManager.PushingDone(m)
    case End => BobManager.End(m)
    case DiscardUndraw => BobManager.DiscardUndraw(m)
  }

  /** No accepted call reopens registration once it is closed, and bobInit
      is never accepted then. */
  lemma StepKeepsRegistrationClosed(m: Manager, c: Call)
    requires BobManager.Inv(m) && BobManager.RegistrationClosed(m)
    requires Step(m, c).Success?
    ensures BobManager.RegistrationClosed(Step(m, c).value) && !c.Init?
  {
  }

  /** A client write accepted between frames keeps the phase and the undraw
      records. */
  lemma StepClientWrite(m: Manager, c: Call)
    requires BobManager.Inv(m) && m.phase.Idle? && IsClientWrite(c)
    requires Step(m, c).Success?
    ensures Step(m, c).value.phase.Idle? && Step(m, c).value.pending == m.pending
  {
  }

  /** bobBegin between frames is accepted and starts the frame with the
      restores of the recorded undraws. */
  lemma StepBegin(m: Manager)
    requires BobManager.Inv(m) && m.phase.Idle?
    ensures Step(m, Begin) == Success(BobManager.Begin(m))
    ensures Step(m, Begin).value.blits == BobManager.Restores(m.pending)
  {
  }

  /** Performs the calls in order, stopping at the first rejected one. */
  function Run(m: Manager, calls: seq<Call>): (r: Result<Manager, Violation>)
    requires BobManager.Inv(m)
    ensures r.Success? ==> BobManager.Inv(r.value)
    decreases |calls|
  {
    if calls == [] then Success(m)
    else
      match Step(m, calls[0])
      case Failure(v) => Failure(v)
      case Success(next) => Run(next, calls[1..])
  }

  lemma {:induction false} RunAppend(m: Manager, a: seq<Call>, b: seq<Call>)
    requires BobManager.Inv(m)
    ensures Run(m, a + b) ==
      (match Run(m, a)
       case Failure(v) => Failure(v)
       case Success(next) => Run(next, b))
    decreases |a|
  {
    if a == [] {
      assert a + b == b;
    } else {
      assert (a + b)[0] == a[0];
      assert (a + b)[1..] == a[1..] + b;
      if Step(m, a[0]).Success? {
        RunAppend(Step(m, a[0]).value, a[1..], b);
      }
    }
  }

  /** Every state reached from bobManagerCreate through accepted calls
      keeps each bob within the size given to bobInit. */
  lemma CapacityAlwaysHolds(calls: seq<Call>)
    requires Run(BobManager.Create(), calls).Success?
    ensures var m := Run(BobManager.Create(), calls).value;
      forall i :: 0 <= i < |m.bobs| ==> BobManager.WithinCapacity(m.bobs[i])
  {
  }

  /** Once bobReallocateBgBuffers has run, registration never reopens and
      no later bobInit is accepted. */
  lemma {:induction false} RegistrationStaysClosed(m: Manager, calls: seq<Call>)
    requires BobManager.Inv(m) && BobManager.RegistrationClosed(m)
    requires Run(m, calls).Success?
    ensures BobManager.RegistrationClosed(Run(m, calls).value)
    ensures forall k :: 0 <= k < |calls| ==> !calls[k].Init?
    decreases |calls|
  {
    if calls != [] {
      var next := Step(m, calls[0]).value;
      StepKeepsRegistrationClosed(m, calls[0]);
      assert Run(m, calls) == Run(next, calls[1..]);
      RegistrationStaysClosed(next, calls[1..]);
      forall k | 0 <= k < |calls|
        ensures !calls[k].Init?
      {
        if k > 0 {
          assert calls[k] == calls[1..][k - 1];
        }
      }
    }
  }

  /** After bobPushingDone the manager is drawing or, after bobEnd, between
      frames: in neither state is bobPush accepted. */
  predicate PushingClosed(m: Manager)
  {
    m.phase.Drawing? || m.phase.Idle?
  }

  /** An accepted step other than bobBegin does not reopen pushing. */
  lemma StepKeepsPushingClosed(m: Manager, c: Call)
    requires BobManager.Inv(m) && PushingClosed(m) && !c.Begin?
    requires Step(m, c).Success?
    ensures PushingClosed(Step(m, c).value)
  {
  }

  /** Pushing stays closed through any accepted calls without a bobBegin. */
  lemma {:induction false} PushingStaysClosed(m: Manager, calls: seq<Call>)
    requires BobManager.Inv(m) && PushingClosed(m)
    requires forall k :: 0 <= k < |calls| ==> !calls[k].Begin?
    requires Run(m, calls).Success?
    ensures PushingClosed(Run(m, calls).value)
    decreases |calls|
  {
    if calls != [] {
      var next := Step(m, calls[0]).value;
      StepKeepsPushingClosed(m, calls[0]);
      assert Run(m, calls) == Run(next, calls[1..]);
      assert forall k :: 0 <= k < |calls[1..]| ==> calls[1..][k] == calls[k + 1];
      PushingStaysClosed(next, calls[1..]);
    }
  }

  lemma PushCheckedWhenClosed(m: Manager, id: BobId, idle: bool)
    requires PushingClosed(m)
    ensures Check(m, Push(id, idle)).Some?
  {
  }

  /** bobPush is rejected from bobPushingDone until the next bobBegin,
      whatever calls (bobProcessNext, bobEnd, client writes,
      bobDiscardUndraw) come in between. */
  lemma PushRejectedAfterPushingDone(m: Manager, calls: seq<Call>, id: BobId, idle: bool)
    requires BobManager.Inv(m) && m.phase.Pushing?
    requires forall k :: 0 <= k < |calls| ==> !calls[k].Begin?
    requires Run(BobManager.PushingDone(m), calls).Success?
    ensures Step(Run(BobManager.PushingDone(m), calls).value, Push(id, idle)).Failure?
  {
    var d := BobManager.PushingDone(m);
    assert PushingClosed(d);
    PushingStaysClosed(d, calls);
    PushCheckedWhenClosed(Run(d, calls).value, id, idle);
  }

  /** The rule that a busy bob must not be modified: a client write to a
      bob waiting to be drawn is rejected, and an accepted client write to
      another bob leaves the busy one as the manager will read it. */
  lemma ClientWriteSparesBusyBobs(m: Manager, c: Call, id: BobId)
    requires BobManager.Inv(m) && IsClientWrite(c) && BobManager.Busy(m, id)
    ensures id < |m.bobs|
    ensures c.id == id ==> Step(m, c) == Failure(BobIsBusy)
    ensures Step(m, c).Success? ==> Step(m, c).value.bobs[id] == m.bobs[id]
  {
    var k :| m.drawn <= k < |m.queue| && m.queue[k].id == id;
    assert m.queue[k].id < |m.bobs|;
  }

  /** The client writes allowed between frames. */
  predicate IsClientWrite(c: Call)
  {
    c.SetFrame? || c.SetWidth? || c.SetHeight? || c.SetPos?
  }

  /** Client writes between frames leave the undraw records alone. */
  lemma {:induction false} ClientWritesKeepUndrawRecords(m: Manager, calls: seq<Call>)
    requires BobManager.Inv(m) && m.phase.Idle?
    requires forall k :: 0 <= k < |calls| ==> IsClientWrite(calls[k])
    requires Run(m, calls).Success?
    ensures Run(m, calls).value.phase.Idle?
    ensures Run(m, calls).value.pending == m.pending
    decreases |calls|
  {
    if calls != [] {
      var next := Step(m, calls[0]).value;
      StepClientWrite(m, calls[0]);
      assert Run(m, calls) == Run(next, calls[1..]);
      assert forall k :: 0 <= k < |calls[1..]| ==> calls[1..][k] == calls[k + 1];
      ClientWritesKeepUndrawRecords(next, calls[1..]);
    }
  }

  /** bobBegin after client writes between frames restores what was
      recorded before those writes. */
  lemma BeginAfterClientWrites(e: Manager, calls: seq<Call>)
    requires BobManager.Inv(e) && e.phase.Idle?
    requires forall k :: 0 <= k < |calls| ==> IsClientWrite(calls[k])
    requires Run(e, calls).Success?
    ensures Run(e, calls + [Begin]).Success?
    ensures Run(e, calls + [Begin]).value.blits == BobManager.Restores(e.pending)
  {
    RunAppend(e, calls, [Begin]);
    ClientWritesKeepUndrawRecords(e, calls);
    var before := Run(e, calls).value;
    StepBegin(before);
    assert [Begin][1..] == [];
    assert Run(before, [Begin]) == Success(BobManager.Begin(before));
  }

  /** Undraw completeness: a frame ended with bobEnd, followed by any client
      writes (new positions, frames or sizes) and then bobBegin, restores the
      background of exactly the drawn bobs that need it, each at the
      position it was drawn at, not at its current one. */
  lemma BeginRestoresLastFramePositions(m: Manager, calls: seq<Call>)
    requires BobManager.Inv(m) && BobManager.InFrame(m)
    requires forall k :: 0 <= k < |calls| ==> IsClientWrite(calls[k])
    requires Run(BobManager.End(m), calls).Success?
    ensures Run(BobManager.End(m), calls + [Begin]).Success?
    ensures Run(BobManager.End(m), calls + [Begin]).value.blits ==
      BobManager.Restores(BobManager.UndrawOf(m.queue))
  {
    var e := BobManager.End(m);
    BeginAfterClientWrites(e, calls);
  }
}
