/** The bob manager of the ACE engine as an abstract protocol.
    Bobs are sprites drawn with the blitter. The manager saves the
    background under each bob before drawing it, and restores that
    background at the start of the next frame.

    The model keeps only what the manager's interface documents: the
    phase of the per-frame state machine, the bobs registered so far, the
    queue of bobs pushed this frame, how many of them have had their
    background stored and how many have been drawn, and the undraw records
    of bobs drawn with background restore. It also keeps the trace of
    blitter operations submitted since the last `Begin`, against which the
    ordering rules are stated.

    Pixels, blit sizes, buffer addresses and the size of the background
    buffer are not modelled. Whether the blitter is idle is an input to
    `ProcessNext` and `Push`. */
module BobManager {
  import opened Bytes

  /** Index of a bob in registration order. */
  type BobId = nat

  /** tUwCoordYX */
  datatype Coord = Coord(x: UWord, y: UWord)

  /** A non-owning reference to frame or mask data (its byte address). */
  type DataRef = nat

  /** tBob. `originalWidth`/`originalHeight` are the debug fields recording
      the size given to `bobInit`, which bounds every later size. */
  datatype Bob = Bob(
    frame: DataRef,
    mask: DataRef,
    pos: Coord,
    width: UWord,
    height: UWord,
    undrawRequired: bool,
    originalWidth: UWord,
    originalHeight: UWord)

  /** The background stored for a bob was sized for its initial size. */
  predicate WithinCapacity(b: Bob)
  {
    b.width <= b.originalWidth && b.height <= b.originalHeight
  }

  /** A bob as pushed: which bob, where it is drawn this frame, and whether
      its background must be restored next frame. */
  datatype Entry = Entry(id: BobId, pos: Coord, undrawRequired: bool)

  /** A blitter operation submitted by the manager. */
  datatype Blit =
    | Restore(entry: Entry)   // undraw: copy the stored background back
    | Save(entry: Entry)      // store the background under the bob
    | Draw(entry: Entry)      // masked copy of the bob's frame

  datatype Phase =
    /** After bobManagerCreate: bobs may be registered. */
    | Registering
    /** Background buffers allocated, no frame open. */
    | Idle
    /** After bobBegin: bobs may be pushed, only backgrounds are stored. */
    | Pushing
    /** After bobPushingDone: no more pushes, bobs are drawn. */
    | Drawing

  datatype Manager = Manager(
    phase: Phase,
    bobs: seq<Bob>,
    queue: seq<Entry>,
    stored: nat,
    drawn: nat,
    pending: seq<Entry>,
    restored: seq<Entry>,
    blits: seq<Blit>)

  /** Set by bobReallocateBgBuffers; bobInit is illegal from then on. */
  predicate RegistrationClosed(m: Manager)
  {
    !m.phase.Registering?
  }

  predicate InFrame(m: Manager)
  {
    m.phase.Pushing? || m.phase.Drawing?
  }

  /** A bob pushed this frame and not drawn yet: the manager may read its
      fields at any moment, so the client must not change them. */
  predicate Busy(m: Manager, id: BobId)
  {
    InFrame(m) && exists k :: m.drawn <= k < |m.queue| && m.queue[k].id == id
  }

  function Restores(es: seq<Entry>): (r: seq<Blit>)
    ensures |r| == |es|
    ensures forall k :: 0 <= k < |es| ==> r[k] == Restore(es[k])
  {
    if es == [] then [] else [Restore(es[0])] + Restores(es[1..])
  }

  function Saves(es: seq<Entry>): (r: seq<Blit>)
    ensures |r| == |es|
    ensures forall k :: 0 <= k < |es| ==> r[k] == Save(es[k])
  {
    if es == [] then [] else [Save(es[0])] + Saves(es[1..])
  }

  function Draws(es: seq<Entry>): (r: seq<Blit>)
    ensures |r| == |es|
    ensures forall k :: 0 <= k < |es| ==> r[k] == Draw(es[k])
  {
    if es == [] then [] else [Draw(es[0])] + Draws(es[1..])
  }

  /** The entries whose background must be restored next frame. */
  function UndrawOf(es: seq<Entry>): (r: seq<Entry>)
    ensures forall e :: e in r <==> e in es && e.undrawRequired
  {
    if es == [] then []
    else (if es[0].undrawRequired then [es[0]] else []) + UndrawOf(es[1..])
  }

  lemma {:induction false} UndrawOfAppend(es: seq<Entry>, e: Entry)
    ensures UndrawOf(es + [e]) == UndrawOf(es) + (if e.undrawRequired then [e] else [])
  {
    if es == [] {
      assert es + [e] == [e];
    } else {
      assert (es + [e])[1..] == es[1..] + [e];
      UndrawOfAppend(es[1..], e);
    }
  }

  /** The shape of every frame: the restores of `bobBegin`, then background
      saves in push order, then draws in push order. */
  predicate TraceShape(m: Manager)
    requires m.drawn <= m.stored <= |m.queue|
  {
    m.blits == Restores(m.restored) + Saves(m.queue[..m.stored]) + Draws(m.queue[..m.drawn])
  }

  /** Every bob stays within the size its background buffer was made for. */
  predicate BobsWithinCapacity(bobs: seq<Bob>)
  {
    forall i :: 0 <= i < |bobs| ==> WithinCapacity(bobs[i])
  }

  /** The queue holds registered bobs. */
  predicate QueueWellFormed(queue: seq<Entry>, count: nat)
  {
    forall k :: 0 <= k < |queue| ==> queue[k].id < count
  }

  /** Saves run ahead of draws, draws wait for pushing to be done, and
      nothing is queued before registration closes. */
  predicate Progress(m: Manager)
  {
    && m.drawn <= m.stored <= |m.queue|
    && (m.drawn > 0 ==> m.stored == |m.queue|)
    && (m.phase.Pushing? ==> m.drawn == 0)
    && (m.phase.Registering? ==> m.queue == [] && m.pending == [] && m.restored == [])
    && (m.phase.Idle? ==> m.drawn == |m.queue|)
  }

  /** The undraw records are those of the bobs drawn so far that need it;
      between frames they may also have been discarded. */
  predicate PendingRecords(m: Manager)
    requires m.drawn <= |m.queue|
  {
    && (InFrame(m) ==> m.pending == UndrawOf(m.queue[..m.drawn]))
    && (m.phase.Idle? ==> m.pending == UndrawOf(m.queue) || m.pending == [])
  }

  /** A queued bob not drawn yet still sits where it was pushed. */
  predicate UndrawnAtPushedPos(m: Manager)
    requires QueueWellFormed(m.queue, |m.bobs|)
  {
    InFrame(m) ==> forall k :: m.drawn <= k < |m.queue| ==>
      m.queue[k].pos == m.bobs[m.queue[k].id].pos
  }

  /** What holds of every state reachable through the documented calls. */
  predicate Inv(m: Manager)
  {
    && BobsWithinCapacity(m.bobs)
    && QueueWellFormed(m.queue, |m.bobs|)
    && Progress(m)
    && TraceShape(m)
    && PendingRecords(m)
    && UndrawnAtPushedPos(m)
  }

  /** bobManagerCreate: no bobs, registration open. */
  function Create(): (m: Manager)
    ensures Inv(m)
    ensures m.phase.Registering? && m.bobs == [] && m.blits == []
  {
    Manager(Registering, [], [], 0, 0, [], [], [])
  }

  /** bobInit: registers a bob whose initial size becomes its capacity. */
  function BobInit(m: Manager, width: UWord, height: UWord, undrawRequired: bool,
                   frame: DataRef, mask: DataRef, x: UWord, y: UWord): (r: (Manager, BobId))
    requires Inv(m) && m.phase.Registering?
    ensures Inv(r.0)
    ensures r.1 == |m.bobs| && |r.0.bobs| == |m.bobs| + 1 && r.0.bobs[..|m.bobs|] == m.bobs
    ensures var b := r.0.bobs[r.1];
      && b.width == b.originalWidth == width && b.height == b.originalHeight == height
      && b.pos == Coord(x, y) && b.frame == frame && b.mask == mask
      && b.undrawRequired == undrawRequired
    ensures r.0.phase.Registering? && r.0.blits == m.blits
  {
    var b := Bob(frame, mask, Coord(x, y), width, height, undrawRequired, width, height);
    var bobs := m.bobs + [b];
    assert bobs[..|m.bobs|] == m.bobs;
    (m.(bobs := bobs), |m.bobs|)
  }

  /** bobReallocateBgBuffers: closes registration; no frame is open yet. */
  function ReallocateBgBuffers(m: Manager): (r: Manager)
    requires Inv(m) && m.phase.Registering?
    ensures Inv(r)
    ensures RegistrationClosed(r) && !InFrame(r)
    ensures r.bobs == m.bobs && r.blits == m.blits
  {
    m.(phase := Idle)
  }

  /** Replaces bob `id` by `b` (a client write to the bob's struct). */
  function UpdateBob(m: Manager, id: BobId, b: Bob): (r: Manager)
    requires Inv(m) && id < |m.bobs| && !Busy(m, id) && WithinCapacity(b)
    requires b.undrawRequired == m.bobs[id].undrawRequired
    ensures Inv(r)
    ensures |r.bobs| == |m.bobs| && r.bobs[id] == b
    ensures forall i :: 0 <= i < |m.bobs| && i != id ==> r.bobs[i] == m.bobs[i]
    ensures r == m.(bobs := r.bobs)
  {
    var r := m.(bobs := m.bobs[id := b]);
    assert InFrame(r) ==> forall k :: m.drawn <= k < |m.queue| ==> m.queue[k].id != id;
    r
  }

  /** bobSetFrame: only the frame and mask references change. */
  function SetFrame(m: Manager, id: BobId, frame: DataRef, mask: DataRef): (r: Manager)
    requires Inv(m) && id < |m.bobs| && !Busy(m, id)
    ensures Inv(r)
    ensures |r.bobs| == |m.bobs|
    ensures r.bobs[id].frame == frame && r.bobs[id].mask == mask
    ensures r.bobs[id] == m.bobs[id].(frame := r.bobs[id].frame, mask := r.bobs[id].mask)
    ensures forall i :: 0 <= i < |m.bobs| && i != id ==> r.bobs[i] == m.bobs[i]
    ensures r == m.(bobs := r.bobs)
  {
    UpdateBob(m, id, m.bobs[id].(frame := frame, mask := mask))
  }

  /** bobSetWidth: legal only up to the width given to bobInit. */
  function SetWidth(m: Manager, id: BobId, width: UWord): (r: Manager)
    requires Inv(m) && id < |m.bobs| && !Busy(m, id)
    requires width <= m.bobs[id].originalWidth
    ensures Inv(r)
    ensures |r.bobs| == |m.bobs|
    ensures r.bobs[id] == m.bobs[id].(width := width)
    ensures forall i :: 0 <= i < |m.bobs| && i != id ==> r.bobs[i] == m.bobs[i]
    ensures r == m.(bobs := r.bobs)
  {
    UpdateBob(m, id, m.bobs[id].(width := width))
  }

  /** bobSetHeight: legal only up to the height given to bobInit. */
  function SetHeight(m: Manager, id: BobId, height: UWord): (r: Manager)
    requires Inv(m) && id < |m.bobs| && !Busy(m, id)
    requires height <= m.bobs[id].originalHeight
    ensures Inv(r)
    ensures |r.bobs| == |m.bobs|
    ensures r.bobs[id] == m.bobs[id].(height := height)
    ensures forall i :: 0 <= i < |m.bobs| && i != id ==> r.bobs[i] == m.bobs[i]
    ensures r == m.(bobs := r.bobs)
  {
    UpdateBob(m, id, m.bobs[id].(height := height))
  }

  /** The client's write to `sPos`, the one field it may set directly. */
  function SetPos(m: Manager, id: BobId, pos: Coord): (r: Manager)
    requires Inv(m) && id < |m.bobs| && !Busy(m, id)
    ensures Inv(r)
    ensures |r.bobs| == |m.bobs|
    ensures r.bobs[id] == m.bobs[id].(pos := pos)
    ensures forall i :: 0 <= i < |m.bobs| && i != id ==> r.bobs[i] == m.bobs[i]
    ensures r == m.(bobs := r.bobs)
  {
    UpdateBob(m, id, m.bobs[id].(pos := pos))
  }

  /** bobBegin: restores the background of every bob recorded for undraw,
      whether or not it is pushed again, then empties the queue. */
  function Begin(m: Manager): (r: Manager)
    requires Inv(m) && m.phase.Idle?
    ensures Inv(r)
    ensures r.phase.Pushing? && r.queue == [] && r.pending == []
    ensures r.blits == Restores(m.pending)
    ensures r.bobs == m.bobs
  {
    Manager(Pushing, m.bobs, [], 0, 0, [], m.pending, Restores(m.pending))
  }

  /** Blitter work the manager still has: a background to store, or, once
      pushing is done, a bob to draw. */
  predicate WorkRemains(m: Manager)
  {
    m.stored < |m.queue| || (m.phase.Drawing? && m.drawn < |m.queue|)
  }

  /** One background save: the next not-yet-stored bob, in push order. */
  function SaveNext(m: Manager): (r: Manager)
    requires Inv(m) && m.stored < |m.queue|
    ensures Inv(r)
    ensures r == m.(stored := m.stored + 1, blits := m.blits + [Save(m.queue[m.stored])])
  {
    var r := m.(stored := m.stored + 1, blits := m.blits + [Save(m.queue[m.stored])]);
    assert m.drawn == 0;
    assert m.queue[..r.stored] == m.queue[..m.stored] + [m.queue[m.stored]];
    assert Saves(r.queue[..r.stored]) == Saves(m.queue[..m.stored]) + [Save(m.queue[m.stored])];
    r
  }

  /** One draw: the next not-yet-drawn bob, in push order, recorded for
      undraw if it needs it. */
  function DrawNext(m: Manager): (r: Manager)
    requires Inv(m) && m.phase.Drawing? && m.stored == |m.queue| && m.drawn < |m.queue|
    ensures Inv(r)
    ensures var e := m.queue[m.drawn];
      r == m.(drawn := m.drawn + 1,
              pending := m.pending + (if e.undrawRequired then [e] else []),
              blits := m.blits + [Draw(e)])
  {
    var e := m.queue[m.drawn];
    var r := m.(drawn := m.drawn + 1,
                pending := m.pending + (if e.undrawRequired then [e] else []),
                blits := m.blits + [Draw(e)]);
    assert m.queue[..r.drawn] == m.queue[..m.drawn] + [e];
    assert Draws(r.queue[..r.drawn]) == Draws(m.queue[..m.drawn]) + [Draw(e)];
    assert TraceShape(r);
    UndrawOfAppend(m.queue[..m.drawn], e);
    assert PendingRecords(r);
    assert UndrawnAtPushedPos(r);
    r
  }

  /** bobProcessNext: when the blitter is idle, submits the next background
      save or, after bobPushingDone and once every background is stored, the
      next draw. Returns whether it found work to do. */
  function ProcessNext(m: Manager, idle: bool): (r: (Manager, bool))
    requires Inv(m)
    ensures Inv(r.0)
    ensures r.1 <==> WorkRemains(m)
    ensures !r.1 || !idle ==> r.0 == m
    ensures r.1 && idle ==> r.0.stored + r.0.drawn == m.stored + m.drawn + 1
    ensures r.0.drawn > m.drawn ==> m.phase.Drawing? && m.stored == |m.queue|
    ensures r.0.phase == m.phase && r.0.queue == m.queue && r.0.bobs == m.bobs
    ensures r.0.restored == m.restored
  {
    if m.stored < |m.queue| then
      (if idle then SaveNext(m) else m, true)
    else if m.phase.Drawing? && m.drawn < |m.queue| then
      (if idle then DrawNext(m) else m, true)
    else (m, false)
  }

  /** bobPush: appends the bob, at its current position, to the queue, then
      performs one `ProcessNext` step; during pushing that step can only
      store a background. */
  function Push(m: Manager, id: BobId, idle: bool): (r: Manager)
    requires Inv(m) && m.phase.Pushing? && id < |m.bobs|
    ensures Inv(r)
    ensures r.queue == m.queue + [Entry(id, m.bobs[id].pos, m.bobs[id].undrawRequired)]
    ensures r.stored == m.stored + (if idle then 1 else 0)
    ensures r.drawn == 0 && r.phase.Pushing? && r.bobs == m.bobs
    ensures r.restored == m.restored && r.pending == m.pending
    ensures var q := m.queue + [Entry(id, m.bobs[id].pos, m.bobs[id].undrawRequired)];
      r.blits == m.blits + (if idle then [Save(q[m.stored])] else [])
    ensures Busy(r, id)
  {
    var e := Entry(id, m.bobs[id].pos, m.bobs[id].undrawRequired);
    var q := m.(queue := m.queue + [e]);
    assert q.queue[..q.stored] == m.queue[..m.stored];
    assert q.queue[..q.drawn] == m.queue[..m.drawn];
    assert q.queue[|m.queue|].id == id;
    ProcessNext(q, idle).0
  }

  /** bobPushingDone: closes the queue; from now on bobs are drawn. */
  function PushingDone(m: Manager): (r: Manager)
    requires Inv(m) && m.phase.Pushing?
    ensures Inv(r)
    ensures r.phase.Drawing? && r.drawn == 0
    ensures r == m.(phase := Drawing)
  {
    m.(phase := Drawing)
  }

  /** The draining loop of bobEnd: `ProcessNext` with the blitter waited
      for, until no work remains. Every background is stored, then every
      bob is drawn, in push order. */
  function Drain(m: Manager): (r: Manager)
    requires Inv(m) && m.phase.Drawing?
    ensures Inv(r) && r.phase.Drawing?
    ensures r.queue == m.queue && r.bobs == m.bobs && r.restored == m.restored
    ensures r.stored == |m.queue| && r.drawn == |m.queue|
    ensures !WorkRemains(r)
    decreases (|m.queue| - m.stored) + (|m.queue| - m.drawn)
  {
    if WorkRemains(m) then Drain(ProcessNext(m, true).0) else m
  }

  /** bobEnd: every pushed bob has its background stored and is drawn; no
      work is left, and the drawn bobs needing undraw are recorded. Called
      while pushing, it first closes the queue as bobPushingDone does. */
  function End(m: Manager): (r: Manager)
    requires Inv(m) && InFrame(m)
    ensures Inv(r)
    ensures r.phase.Idle? && !WorkRemains(r)
    ensures r.queue == m.queue && r.bobs == m.bobs
    ensures r.stored == |m.queue| && r.drawn == |m.queue|
    ensures r.pending == UndrawOf(m.queue)
    ensures r.blits == Restores(m.restored) + Saves(m.queue) + Draws(m.queue)
  {
    var d := Drain(if m.phase.Pushing? then PushingDone(m) else m);
    assert d.queue[..d.drawn] == m.queue;
    d.(phase := Idle)
  }

  /** bobDiscardUndraw: forgets the pending restores between frames. */
  function DiscardUndraw(m: Manager): (r: Manager)
    requires Inv(m) && !InFrame(m)
    ensures Inv(r)
    ensures r.pending == []
    ensures r == m.(pending := [])
  {
    m.(pending := [])
  }
  // ---------------------------------------------------------------------
  // Ordering of the blitter operations within a frame
  // ---------------------------------------------------------------------

  datatype Kind = RestoreKind | SaveKind | DrawKind

  function KindOf(b: Blit): Kind
  {
    match b
    case Restore(_) => RestoreKind
    case Save(_) => SaveKind
    case Draw(_) => DrawKind
  }

  /** The entries of the operations of one kind, in submission order. */
  function EntriesOfKind(bs: seq<Blit>, kind: Kind): seq<Entry>
  {
    if bs == [] then []
    else (if KindOf(bs[0]) == kind then [bs[0].entry] else []) + EntriesOfKind(bs[1..], kind)
  }

  lemma {:induction false} EntriesOfKindAppend(a: seq<Blit>, b: seq<Blit>, kind: Kind)
    ensures EntriesOfKind(a + b, kind) == EntriesOfKind(a, kind) + EntriesOfKind(b, kind)
  {
    if a == [] {
      assert a + b == b;
    } else {
      assert (a + b)[0] == a[0];
      assert (a + b)[1..] == a[1..] + b;
      EntriesOfKindAppend(a[1..], b, kind);
    }
  }

  /** Operations all of one kind contribute exactly their entries to that
      kind and nothing to the others. */
  lemma {:induction false} EntriesOfRestores(es: seq<Entry>, kind: Kind)
    ensures EntriesOfKind(Restores(es), kind) == (if kind == RestoreKind then es else [])
  {
    if es != [] {
      assert Restores(es)[1..] == Restores(es[1..]);
      EntriesOfRestores(es[1..], kind);
    }
  }

  lemma {:induction false} EntriesOfSaves(es: seq<Entry>, kind: Kind)
    ensures EntriesOfKind(Saves(es), kind) == (if kind == SaveKind then es else [])
  {
    if es != [] {
      assert Saves(es)[1..] == Saves(es[1..]);
      EntriesOfSaves(es[1..], kind);
    }
  }

  lemma {:induction false} EntriesOfDraws(es: seq<Entry>, kind: Kind)
    ensures EntriesOfKind(Draws(es), kind) == (if kind == DrawKind then es else [])
  {
    if es != [] {
      assert Draws(es)[1..] == Draws(es[1..]);
      EntriesOfDraws(es[1..], kind);
    }
  }

  /** The entries of each kind in a trace shaped restores, saves, draws. */
  lemma EntriesOfFrame(rs: seq<Entry>, ss: seq<Entry>, ds: seq<Entry>, kind: Kind)
    ensures EntriesOfKind(Restores(rs) + Saves(ss) + Draws(ds), kind) ==
      (if kind == RestoreKind then rs else if kind == SaveKind then ss else ds)
  {
    EntriesOfKindAppend(Restores(rs) + Saves(ss), Draws(ds), kind);
    EntriesOfKindAppend(Restores(rs), Saves(ss), kind);
    EntriesOfRestores(rs, kind);
    EntriesOfSaves(ss, kind);
    EntriesOfDraws(ds, kind);
    match kind
    case RestoreKind => assert rs + [] + [] == rs;
    case SaveKind => assert [] + ss + [] == ss;
    case DrawKind => assert [] + [] + ds == ds;
  }

  /** Within a frame, backgrounds are saved and bobs drawn in exactly the
      order they were pushed (there is no z-order), and the restores are
      those of the undraw records taken at `bobBegin`. */
  lemma OperationsFollowPushOrder(m: Manager)
    requires Inv(m)
    ensures EntriesOfKind(m.blits, RestoreKind) == m.restored
    ensures EntriesOfKind(m.blits, SaveKind) == m.queue[..m.stored]
    ensures EntriesOfKind(m.blits, DrawKind) == m.queue[..m.drawn]
  {
    EntriesOfFrame(m.restored, m.queue[..m.stored], m.queue[..m.drawn], RestoreKind);
    EntriesOfFrame(m.restored, m.queue[..m.stored], m.queue[..m.drawn], SaveKind);
    EntriesOfFrame(m.restored, m.queue[..m.stored], m.queue[..m.drawn], DrawKind);
  }

  /** Before bobPushingDone nothing is drawn: processing only stores
      backgrounds. */
  lemma NoDrawBeforePushingDone(m: Manager)
    requires Inv(m) && m.phase.Pushing?
    ensures EntriesOfKind(m.blits, DrawKind) == []
  {
    OperationsFollowPushOrder(m);
  }

  /** Once the first bob is drawn, every pushed bob has had its background
      stored and every later operation is a draw: no background is saved
      after any bob's pixels reach the screen. */
  lemma BackgroundsStoredBeforeAnyDraw(m: Manager)
    requires Inv(m)
    ensures forall i, j :: 0 <= i < j < |m.blits| && m.blits[i].Draw? ==> m.blits[j].Draw?
    ensures (exists i :: 0 <= i < |m.blits| && m.blits[i].Draw?) ==>
      EntriesOfKind(m.blits, SaveKind) == m.queue
  {
    var n := |m.restored| + m.stored;
    forall i, j | 0 <= i < j < |m.blits| && m.blits[i].Draw?
      ensures m.blits[j].Draw?
    {
      assert i >= n;
    }
    OperationsFollowPushOrder(m);
    if exists i :: 0 <= i < |m.blits| && m.blits[i].Draw? {
      assert m.drawn > 0;
      assert m.queue[..m.stored] == m.queue;
    }
  }

  /** After bobEnd, every pushed bob has had its background stored and has
      been drawn, in push order, and calling bobProcessNext again reports no
      work and changes nothing. */
  lemma EndCompletesFrame(m: Manager, idle: bool)
    requires Inv(m) && InFrame(m)
    ensures EntriesOfKind(End(m).blits, SaveKind) == m.queue
    ensures EntriesOfKind(End(m).blits, DrawKind) == m.queue
    ensures ProcessNext(End(m), idle) == (End(m), false)
  {
    var e := End(m);
    OperationsFollowPushOrder(e);
    assert e.queue[..e.stored] == m.queue;
    assert !WorkRemains(e);
    assert !ProcessNext(e, idle).1;
  }
}
