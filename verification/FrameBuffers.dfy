/** Video frames are windows on shared buffers. A frame is counted by its PVideoFrame handles, a buffer by
    its live frames, and write access is granted from these two counts alone. */
module FrameBuffers {

  /** Live frames, the buffers under them, and the handles. A frame is live from its construction to the
      end of its last handle. */
  class Registry {
    ghost var buffers: set<VideoFrameBuffer>
    ghost var frames: set<VideoFrame>
    ghost var handles: set<PVideoFrame>

    constructor ()
      ensures Valid() && buffers == {} && frames == {} && handles == {}
    {
      buffers, frames, handles := {}, {}, {};
    }

    /** A frame's count is the number of its handles and of its references in flight, a buffer's count the
        number of its live frames. */
    ghost predicate Counted(inFlight: multiset<VideoFrame>)
      reads this, buffers, frames, handles
    {
      && (forall f :: f in frames ==> f.vfb in buffers && f.refcount == |HandlesOn(handles, f)| + inFlight[f])
      && (forall b :: b in buffers ==> b.refcount == |FramesOn(frames, b)|)
      && (forall h :: h in handles && h.p != null ==> h.p in frames)
      && (forall f :: f in inFlight ==> f in frames)
    }

    ghost predicate Valid()
      reads this, buffers, frames, handles
    {
      Counted(multiset{})
    }

    /** The reference in flight lands on handle h. */
    ghost method Enter(h: PVideoFrame)
      requires Counted(One(h.p)) && h !in handles
      modifies this`handles
      ensures Valid() && handles == old(handles) + {h}
    {
      CountHandles(handles + {h}, h);
      assert handles + {h} - {h} == handles;
      handles := handles + {h};
    }

    /** Handle h stops counting: its reference is in flight. */
    ghost method Leave(h: PVideoFrame, inFlight: multiset<VideoFrame>)
      requires Counted(inFlight) && h in handles
      modifies this`handles
      ensures Counted(inFlight + One(h.p)) && handles == old(handles) - {h}
    {
      CountHandles(handles, h);
      handles := handles - {h};
    }
  }

  ghost function HandlesOn(hs: set<PVideoFrame>, f: VideoFrame): set<PVideoFrame>
    reads hs
  {
    set h | h in hs && h.p == f
  }

  ghost function FramesOn(fs: set<VideoFrame>, b: VideoFrameBuffer): set<VideoFrame> {
    set f | f in fs && f.vfb == b
  }

  ghost function One(f: VideoFrame?): multiset<VideoFrame> {
    if f == null then multiset{} else multiset{f}
  }

  /** A frame without handle and without reference in flight is no longer live. */
  ghost function Ended(f: VideoFrame?, hs: set<PVideoFrame>, inFlight: multiset<VideoFrame>): set<VideoFrame>
    reads hs
  {
    if f != null && HandlesOn(hs, f) == {} && f !in inFlight then {f} else {}
  }

  lemma CountHandles(hs: set<PVideoFrame>, h: PVideoFrame)
    requires h in hs
    ensures forall f :: |HandlesOn(hs - {h}, f)| == |HandlesOn(hs, f)| - (if h.p == f then 1 else 0)
  {
    forall f
      ensures |HandlesOn(hs - {h}, f)| == |HandlesOn(hs, f)| - (if h.p == f then 1 else 0)
    {
      assert HandlesOn(hs - {h}, f) == HandlesOn(hs, f) - {h};
    }
  }

  lemma CountFrames(fs: set<VideoFrame>, f: VideoFrame)
    requires f in fs
    ensures forall b :: |FramesOn(fs - {f}, b)| == |FramesOn(fs, b)| - (if f.vfb == b then 1 else 0)
  {
    forall b
      ensures |FramesOn(fs - {f}, b)| == |FramesOn(fs, b)| - (if f.vfb == b then 1 else 0)
    {
      assert FramesOn(fs - {f}, b) == FramesOn(fs, b) - {f};
    }
  }

  /** The invariant on the objects themselves. */
  lemma CountsAreReferences(registry: Registry)
    requires registry.Valid()
    ensures forall f :: f in registry.frames ==>
              f.vfb in registry.buffers && f.refcount == |set h | h in registry.handles && h.p == f|
    ensures forall b :: b in registry.buffers ==> b.refcount == |set f | f in registry.frames && f.vfb == b|
    ensures forall h :: h in registry.handles && h.p != null ==> h.p in registry.frames
  {
    forall f | f in registry.frames
      ensures HandlesOn(registry.handles, f) == set h | h in registry.handles && h.p == f
    {
    }
    forall b | b in registry.buffers
      ensures FramesOn(registry.frames, b) == set f | f in registry.frames && f.vfb == b
    {
    }
  }

  /** The two counts decide whether a handle has the buffer to itself. */
  lemma WritableIsUnshared(registry: Registry, h: PVideoFrame)
    requires registry.Valid() && h in registry.handles && h.p != null
    ensures h.p.IsWritable() <==>
              && (forall k :: k in registry.handles && k.p != null && k.p.vfb == h.p.vfb ==> k == h)
              && (forall f :: f in registry.frames && f.vfb == h.p.vfb ==> f == h.p)
  {
    var f := h.p;
    var hs, fs := HandlesOn(registry.handles, f), FramesOn(registry.frames, f.vfb);
    Unique(hs, h);
    Unique(fs, f);
    assert forall k :: k in registry.handles && k.p != null && k.p.vfb == f.vfb ==> k.p in fs;
    assert forall k :: k in hs ==> k in registry.handles && k.p == f;
    assert forall k :: k in registry.handles && k.p == f ==> k in hs;
    assert forall g :: g in registry.frames && g.vfb == f.vfb ==> g in fs;
  }

  lemma Unique<T>(s: set<T>, x: T)
    requires x in s
    ensures |s| == 1 <==> forall y :: y in s ==> y == x
  {
    assert |s - {x}| == |s| - 1;
    if forall y :: y in s ==> y == x {
      assert s - {x} == {};
    } else {
      var y :| y in s && y != x;
      assert y in s - {x};
    }
  }

  class VideoFrameBuffer {
    var sequenceNumber: int
    var refcount: int

    constructor ()
      ensures refcount == 0
    {
      refcount, sequenceNumber := 0, 0;
    }
  }

  class VideoFrame {
    var refcount: int
    const vfb: VideoFrameBuffer

    constructor (vfb: VideoFrameBuffer)
      ensures refcount == 0 && this.vfb == vfb
    {
      refcount := 0;
      this.vfb := vfb;
    }

    method AddRef(ghost registry: Registry, ghost inFlight: multiset<VideoFrame>)
      requires registry.Counted(inFlight) && this in registry.frames
      modifies this`refcount
      ensures registry.Counted(inFlight + One(this))
      ensures refcount == old(refcount) + 1
    {
      refcount := refcount + 1;
      assert forall f :: f in inFlight + One(this) ==> f in inFlight || f == this;
    }

    /** Gives up one reference in flight. The frame ends exactly when that was its last reference, and its
        buffer is then counted once less; no other frame or buffer is affected. */
    method Release(ghost registry: Registry, ghost inFlight: multiset<VideoFrame>)
      requires registry.Counted(inFlight + One(this))
      modifies this`refcount, vfb`refcount, registry`frames
      ensures registry.Counted(inFlight)
      ensures registry.frames == old(registry.frames) - Ended(this, registry.handles, inFlight)
      ensures vfb.refcount == old(vfb.refcount) - |Ended(this, registry.handles, inFlight)|
    {
      hide HandlesOn, FramesOn, Ended;
      assert this in inFlight + One(this);
      refcount := refcount - 1;
      if refcount == 0 {
        vfb.refcount := vfb.refcount - 1;
        CountFrames(registry.frames, this);
        registry.frames := registry.frames - {this};
      }
      LastReference(this, registry.handles, inFlight);
    }

    predicate IsWritable()
      reads this, vfb
    {
      refcount == 1 && vfb.refcount == 1
    }

    /** Write access is granted exactly when the handle shares the buffer with no other handle or frame,
        and a grant makes older views of the buffer stale. */
    method GetWritePtr(ghost holder: PVideoFrame, ghost registry: Registry) returns (granted: bool)
      requires registry.Valid() && holder in registry.handles && holder.p == this
      modifies vfb`sequenceNumber
      ensures registry.Valid()
      ensures granted <==>
                && (forall h :: h in registry.handles && h.p != null && h.p.vfb == vfb ==> h == holder)
                && (forall f :: f in registry.frames && f.vfb == vfb ==> f == this)
      ensures vfb.sequenceNumber == old(vfb.sequenceNumber) + if granted then 1 else 0
    {
      WritableIsUnshared(registry, holder);
      granted := IsWritable();
      if granted {
        vfb.sequenceNumber := vfb.sequenceNumber + 1;
      }
    }
  }

  lemma LastReference(f: VideoFrame, hs: set<PVideoFrame>, inFlight: multiset<VideoFrame>)
    ensures |HandlesOn(hs, f)| + inFlight[f] == 0 <==> Ended(f, hs, inFlight) == {f}
    ensures Ended(f, hs, inFlight) == {f} || Ended(f, hs, inFlight) == {}
    ensures forall h :: h in hs && h.p == f ==> |HandlesOn(hs, f)| > 0
  {
    assert forall h :: h in hs && h.p == f ==> h in HandlesOn(hs, f);
  }

  /** A stored reference keeps a frame live as the reference in flight did. */
  lemma EndedAfterStore(f: VideoFrame?, hs: set<PVideoFrame>, h: PVideoFrame)
    requires h !in hs
    ensures Ended(f, hs + {h}, multiset{}) == Ended(f, hs, One(h.p))
  {
    if f != null {
      assert HandlesOn(hs + {h}, f) == HandlesOn(hs, f) + if h.p == f then {h} else {};
    }
  }

  lemma EndedWithoutHandle(f: VideoFrame?, hs: set<PVideoFrame>)
    ensures f != null && f in Ended(f, hs, multiset{}) <==> f != null && forall h :: h in hs ==> h.p != f
  {
    if f != null {
      assert forall h :: h in HandlesOn(hs, f) <==> h in hs && h.p == f;
    }
  }

  /** A new frame takes one reference to its buffer; it has no handle yet. */
  method NewFrame(vfb: VideoFrameBuffer, ghost registry: Registry) returns (f: VideoFrame)
    requires registry.Valid() && vfb in registry.buffers
    modifies registry`frames, vfb`refcount
    ensures registry.Valid() && fresh(f) && f.refcount == 0 && f.vfb == vfb
    ensures registry.frames == old(registry.frames) + {f}
    ensures vfb.refcount == old(vfb.refcount) + 1
  {
    f := new VideoFrame(vfb);
    vfb.refcount := vfb.refcount + 1;
    assert HandlesOn(registry.handles, f) == {};
    CountFrames(registry.frames + {f}, f);
    assert registry.frames + {f} - {f} == registry.frames;
    registry.frames := registry.frames + {f};
  }

  /** The smart pointer to a frame. */
  class PVideoFrame {
    var p: VideoFrame?

    constructor Init(x: VideoFrame?, ghost registry: Registry)
      requires registry.Valid() && (x != null ==> x in registry.frames)
      modifies registry`handles, if x == null then {} else {x}
      ensures registry.Valid() && fresh(this) && p == x
      ensures registry.handles == old(registry.handles) + {this}
      ensures x != null ==> x.refcount == old(x.refcount) + 1
    {
      p := x;
      new;
      assert multiset{} + One(x) == One(x);
      if x != null {
        x.AddRef(registry, multiset{});
      }
      registry.Enter(this);
    }

    /** operator=: x may be the frame this handle already holds. A frame ends with its last handle. */
    method Set(x: VideoFrame?, ghost registry: Registry)
      requires registry.Valid() && this in registry.handles && (x != null ==> x in registry.frames)
      modifies this, registry`frames, registry`handles, registry.frames`refcount, registry.buffers`refcount
      ensures registry.Valid() && p == x && registry.handles == old(registry.handles)
      ensures registry.frames == old(registry.frames) - Ended(old(p), registry.handles, multiset{})
      ensures forall f :: f in old(registry.frames) ==>
                (f !in registry.frames <==> f == old(p) && forall h :: h in registry.handles ==> h.p != f)
    {
      hide Registry.Counted;
      assert multiset{} + One(x) == One(x);
      if x != null {
        x.AddRef(registry, multiset{});
      }
      ghost var held := p;
      ReleaseHeld(registry, One(x));
      p := x;
      EndedAfterStore(held, registry.handles, this);
      registry.Enter(this);
      EndedWithoutHandle(held, registry.handles);
    }

    /** ~PVideoFrame. */
    method Destroy(ghost registry: Registry)
      requires registry.Valid() && this in registry.handles
      modifies registry`frames, registry`handles, registry.frames`refcount, registry.buffers`refcount
      ensures registry.Valid() && registry.handles == old(registry.handles) - {this}
      ensures registry.frames == old(registry.frames) - Ended(p, registry.handles, multiset{})
      ensures forall f :: f in old(registry.frames) ==>
                (f !in registry.frames <==> f == p && forall h :: h in registry.handles ==> h.p != f)
    {
      ReleaseHeld(registry, multiset{});
      EndedWithoutHandle(p, registry.handles);
    }

    /** if (p) p->Release(): this handle stops counting and its reference is given up. */
    method ReleaseHeld(ghost registry: Registry, ghost inFlight: multiset<VideoFrame>)
      requires registry.Counted(inFlight) && this in registry.handles
      modifies registry`frames, registry`handles, registry.frames`refcount, registry.buffers`refcount
      ensures registry.Counted(inFlight) && registry.handles == old(registry.handles) - {this}
      ensures registry.frames == old(registry.frames) - Ended(p, registry.handles, inFlight)
    {
      registry.Leave(this, inFlight);
      if p != null {
        p.Release(registry, inFlight);
      } else {
        assert inFlight + One(null) == inFlight;
      }
    }
  }
}
