/** The intrusive reference counts of AviSynth clips: IClip, PClip, AVSValue and the child handle of a
    GenericVideoFilter. The ghost Registry knows which objects are currently alive. */
module ClipHandles {
  import opened Chains

  /** Live clips, handles and values. */
  class Registry {
    ghost var clips: set<IClip>
    ghost var counts: map<IClip, int>
    ghost var handles: set<PClip>
    ghost var values: set<AVSValue>
    ghost var open: IClip?
    ghost var links: map<IClip, Link<IClip>>

    constructor ()
      ensures clips == {} && handles == {} && values == {}
      ensures Valid()
    {
      clips, counts, handles, values, open, links := {}, map[], {}, {}, null, map[];
    }

    /** `open` is the filter, if any, whose child handle is being assigned; the links go from every live clip
        to the clip below it. */
    ghost predicate Counted(inFlight: multiset<IClip>)
      reads this, clips, handles, values
    {
      && counts.Keys == clips
      && (forall c :: c in clips ==> counts[c] == c.refcnt)
      && Consistent(Books(), inFlight)
    }

    ghost function Books(): Ledger
      reads this
    {
      Ledger(counts, handles, values, open, links)
    }

    /** The invariant between operations. */
    ghost predicate Valid()
      reads this, clips, handles, values
    {
      Counted(multiset{}) && open == null
    }

    /** The open filter survives a release of the clip `from`: there is a reference to it in flight, or none
        to it at all, or the chain from that clip does not lead to it. */
    ghost predicate Pinned(inFlight: multiset<IClip>, from: IClip?)
      reads this, clips
    {
      open != null ==>
        open in inFlight || (open in clips && (open.refcnt == 0 || !Leads(links, Arrow(from), open)))
    }

    ghost predicate OpenAlive()
      reads this
    {
      open != null ==> open in clips
    }

    /** The handle is not the child member of a live filter other than `owner`. */
    ghost predicate ChildOfNoneBut(h: PClip, owner: IClip?)
      reads this
    {
      forall c :: c in clips && c.child == h ==> c == owner
    }

    /** `delete this`: the clip and its child handle cease to exist, and the handle's reference is left in
        flight. */
    ghost method Forget(c: IClip, inFlight: multiset<IClip>)
      requires Counted(inFlight) && Pinned(inFlight, c)
      requires c in clips && c.refcnt == 0 && c != open
      modifies this`clips, this`counts, this`handles, this`links
      ensures Counted(inFlight + One(Held(c))) && Pinned(inFlight, Held(c))
      ensures clips == old(clips) - {c} && links == old(links) - {c}
      ensures handles == old(handles) - Children({c})
    {
      hide Counted, Leads, Children, Steps, Sub;
      LinkBelow(c, inFlight);
      StillSpared(links - {c}, links, c, open);
      Remove(c, inFlight);
    }

    ghost method Remove(c: IClip, inFlight: multiset<IClip>)
      requires Counted(inFlight) && c in clips && c.refcnt == 0 && c != open
      modifies this`clips, this`counts, this`handles, this`links
      ensures Counted(inFlight + One(Held(c)))
      ensures clips == old(clips) - {c} && links == old(links) - {c}
      ensures handles == old(handles) - Children({c})
    {
      hide Consistent, Children;
      ClipDeleted(Books(), inFlight, c);
      clips, counts, handles, links := clips - {c}, counts - {c}, handles - Children({c}), links - {c};
    }

    lemma LinkedKeys(inFlight: multiset<IClip>)
      requires Counted(inFlight)
      ensures links.Keys == clips
      ensures forall c :: c in inFlight ==> c in clips
    {
      hide Consistent;
      Alive(Books(), inFlight);
    }

    lemma ChainsClosed()
      requires Valid()
      ensures Closed(links)
    {
      hide Consistent;
      LinksClosed(Books(), multiset{});
    }

    lemma LinkBelow(c: IClip, inFlight: multiset<IClip>)
      requires Counted(inFlight) && c in clips && c != open
      ensures c in links && links[c] == Below(c)
    {
      hide Consistent;
      LinksClosed(Books(), inFlight);
    }

    ghost method EnterHandle(h: PClip, inFlight: multiset<IClip>)
      requires Counted(inFlight + One(h.p)) && h !in handles
      requires open == null || (open in clips && h == open.child)
      modifies this`handles, this`open, this`links
      ensures Counted(inFlight) && open == null && handles == old(handles) + {h}
      ensures old(open) == null ==> links == old(links)
      ensures old(open) != null ==> links == old(links)[old(open) := Arrow(h.p)]
    {
      hide Consistent;
      HandleAdded(Books(), inFlight, h);
      handles := handles + {h};
      if open != null {
        ChildBack(Books(), inFlight, open);
        links := links[open := Below(open)];
        open := null;
      }
    }

    /** Handle h stops counting: its reference is in flight. */
    ghost method LeaveHandle(h: PClip, inFlight: multiset<IClip>)
      requires Counted(inFlight) && h in handles && ChildOfNoneBut(h, open)
      modifies this`handles
      ensures Counted(inFlight + One(h.p)) && handles == old(handles) - {h}
    {
      hide Consistent;
      HandleRemoved(Books(), inFlight, h);
      handles := handles - {h};
    }

    ghost method LeaveValue(v: AVSValue, inFlight: multiset<IClip>)
      requires Counted(inFlight) && v in values
      modifies this`values
      ensures Counted(inFlight + One(v.Holds())) && values == old(values) - {v}
    {
      hide Consistent;
      ValueRemoved(Books(), inFlight, v);
      values := values - {v};
    }

    /** The reference of the holder counts as in flight while its clip's child handle is assigned. */
    ghost method Open(holder: Holder, owner: IClip?)
      requires Valid() && holder.Keeps(this, owner) && (owner != null ==> owner.child != null)
      modifies this`handles, this`values, this`open
      ensures Counted(holder.InFlight(owner))
      ensures owner != null ==> Pinned(holder.InFlight(owner), owner.child.p)
      ensures open == owner
      ensures handles == old(handles) - holder.Handles() && values == old(values) - holder.Values()
    {
      hide Counted, Leads;
      assert multiset{} + One(owner) == One(owner);
      match holder {
        case Nobody =>
        case ByHandle(h) =>
          LeaveHandle(h, multiset{});
        case ByValue(v) =>
          LeaveValue(v, multiset{});
      }
      Begin(owner, holder.InFlight(owner));
    }

    ghost method Begin(owner: IClip?, inFlight: multiset<IClip>)
      requires Counted(inFlight) && open == null
      modifies this`open
      ensures Counted(inFlight) && open == owner
    {
      hide Consistent;
      Opened(Books(), inFlight, owner);
      open := owner;
    }

    ghost method Close(holder: Holder, owner: IClip?)
      requires Counted(holder.InFlight(owner)) && open == null
      requires holder.Nobody? || holder.On(owner)
      requires holder.Handles() !! handles && holder.Values() !! values
      modifies this`handles, this`values, this`open, this`links
      ensures Valid() && links == old(links)
      ensures handles == old(handles) + holder.Handles() && values == old(values) + holder.Values()
    {
      hide Consistent;
      assert multiset{} + One(owner) == One(owner);
      match holder
      case Nobody =>
      case ByHandle(h) =>
        EnterHandle(h, multiset{});
      case ByValue(v) =>
        EnterValue(v);
    }

    ghost method EnterValue(v: AVSValue)
      requires Counted(One(v.Holds())) && open == null && v !in values
      modifies this`values
      ensures Valid() && values == old(values) + {v}
    {
      hide Consistent;
      assert multiset{} + One(v.Holds()) == One(v.Holds());
      ValueAdded(Books(), multiset{}, v);
      values := values + {v};
    }

    ghost method EnterClip(c: IClip)
      requires Valid() && c !in clips && c.refcnt == 0
      requires c.child != null ==> Free(c.child)
      modifies this`clips, this`counts, this`links
      ensures Valid() && clips == old(clips) + {c} && links == old(links)[c := Below(c)]
      ensures old(Acyclic(links)) ==> Acyclic(links)
    {
      hide Consistent, Acyclic;
      Alive(Books(), multiset{});
      LinksClosed(Books(), multiset{});
      ClipEntered(Books(), c);
      if Acyclic(links) {
        EnteredAcyclic(links, c, Below(c));
      }
      clips, counts, links := clips + {c}, counts[c := 0], links[c := Below(c)];
    }

    /** A live handle keeps its clip alive. */
    lemma HandleKeeps(h: PClip, inFlight: multiset<IClip>)
      requires Counted(inFlight) && h in handles && h.p != null
      ensures h.p in clips && h.p.refcnt >= 1
    {
      assert h in HandlesOn(handles, h.p);
    }

    /** And so does a live clip value. */
    lemma ValueKeeps(v: AVSValue, inFlight: multiset<IClip>)
      requires Counted(inFlight) && v in values && v.Holds() != null
      ensures v.Holds() in clips && v.Holds().refcnt >= 1
    {
      assert v in ValuesOn(values, v.Holds());
    }

    /** Counts are not negative, and live handles refer to live clips. */
    lemma Facts()
      requires Valid()
      ensures forall c :: c in clips ==> c.refcnt >= 0
      ensures forall h :: h in handles && h.p != null ==> h.p in clips
    {
      hide Consistent;
      Alive(Books(), multiset{});
    }

    /** A handle of its own, not the child member of a live filter. */
    ghost predicate Free(h: PClip)
      reads this
    {
      h in handles && ChildOfNoneBut(h, null)
    }
  }

  ghost function Arrow(c: IClip?): Link<IClip> {
    if c == null then End
    else
      var d: IClip := c;
      To(d)
  }

  /** The clip that the child handle holds. */
  ghost function Held(c: IClip): IClip?
    reads c.child
  {
    if c.child == null then null else c.child.p
  }

  ghost function Below(c: IClip): Link<IClip>
    reads c.child
  {
    Arrow(Held(c))
  }

  ghost function HandlesOn(hs: set<PClip>, c: IClip): set<PClip>
    reads hs
  {
    set h | h in hs && h.p == c
  }

  ghost function ValuesOn(vs: set<AVSValue>, c: IClip): set<AVSValue>
    reads vs
  {
    set v | v in vs && v.Holds() == c
  }

  /** What the registry knows. */
  datatype Ledger = Ledger(
    counts: map<IClip, int>, handles: set<PClip>, values: set<AVSValue>, open: IClip?,
    links: map<IClip, Link<IClip>>)

  /** The counting invariant: a live clip's count is the number of live handles on it, child handles
      included, plus the number of live clip-typed values on it, plus the references in flight inside
      an unfinished operation; and nothing alive refers to a deleted clip. The links are the pointers of
      the child handles, except that the open filter still has its old link. */
  ghost predicate Consistent(b: Ledger, inFlight: multiset<IClip>)
    reads b.handles, b.values
  {
    && (forall c :: c in b.counts ==>
          b.counts[c] == |HandlesOn(b.handles, c)| + |ValuesOn(b.values, c)| + inFlight[c])
    && (forall h :: h in b.handles && h.p != null ==> h.p in b.counts)
    && (forall v :: v in b.values && v.Holds() != null ==> v.Holds() in b.counts)
    && (forall c :: c in inFlight ==> c in b.counts)
    && (forall c :: c in b.counts && c.child != null && c != b.open ==> c.child in b.handles)
    && (forall c, d :: c in b.counts && d in b.counts && c.child != null && c.child == d.child ==> c == d)
    && b.links.Keys == b.counts.Keys
    && (forall c :: c in b.counts && c != b.open ==> b.links[c] == Below(c))
  }

  /** The child handles that die with the given clips. */
  ghost function Children(cs: set<IClip>): set<PClip> {
    set c | c in cs && c.child != null :: c.child
  }

  ghost function One(c: IClip?): multiset<IClip> {
    if c == null then multiset{} else multiset{c}
  }

  lemma CountHandles(hs: set<PClip>, h: PClip, c: IClip)
    requires h in hs
    ensures |HandlesOn(hs - {h}, c)| == |HandlesOn(hs, c)| - (if h.p == c then 1 else 0)
  {
    assert HandlesOn(hs - {h}, c) == HandlesOn(hs, c) - {h};
  }

  lemma CountValues(vs: set<AVSValue>, v: AVSValue, c: IClip)
    requires v in vs
    ensures |ValuesOn(vs - {v}, c)| == |ValuesOn(vs, c)| - (if v.Holds() == c then 1 else 0)
  {
    assert ValuesOn(vs - {v}, c) == ValuesOn(vs, c) - {v};
  }

  /** Taking a handle out of the registry leaves its reference in flight. */
  lemma HandleRemoved(b: Ledger, inFlight: multiset<IClip>, h: PClip)
    requires Consistent(b, inFlight)
    requires h in b.handles && forall c :: c in b.counts && c.child == h ==> c == b.open
    ensures Consistent(b.(handles := b.handles - {h}), inFlight + One(h.p))
  {
    forall c | c in b.counts
      ensures b.counts[c] == |HandlesOn(b.handles - {h}, c)| + |ValuesOn(b.values, c)| + (inFlight + One(h.p))[c]
    {
      CountHandles(b.handles, h, c);
    }
  }

  /** Registering a handle lands its reference. */
  lemma HandleAdded(b: Ledger, inFlight: multiset<IClip>, h: PClip)
    requires Consistent(b, inFlight + One(h.p))
    requires h !in b.handles
    ensures Consistent(b.(handles := b.handles + {h}), inFlight)
  {
    var hs := b.handles + {h};
    assert hs - {h} == b.handles;
    assert h.p != null ==> h.p in inFlight + One(h.p);
    forall c | c in b.counts
      ensures b.counts[c] == |HandlesOn(hs, c)| + |ValuesOn(b.values, c)| + inFlight[c]
    {
      CountHandles(hs, h, c);
    }
    forall c | c in inFlight
      ensures c in b.counts
    {
      assert c in inFlight + One(h.p);
    }
  }

  lemma ValueRemoved(b: Ledger, inFlight: multiset<IClip>, v: AVSValue)
    requires Consistent(b, inFlight)
    requires v in b.values
    ensures Consistent(b.(values := b.values - {v}), inFlight + One(v.Holds()))
  {
    forall c | c in b.counts
      ensures b.counts[c] == |HandlesOn(b.handles, c)| + |ValuesOn(b.values - {v}, c)| + (inFlight + One(v.Holds()))[c]
    {
      CountValues(b.values, v, c);
    }
  }

  lemma ValueAdded(b: Ledger, inFlight: multiset<IClip>, v: AVSValue)
    requires Consistent(b, inFlight + One(v.Holds()))
    requires v !in b.values
    ensures Consistent(b.(values := b.values + {v}), inFlight)
  {
    var vs := b.values + {v};
    assert vs - {v} == b.values;
    assert v.Holds() != null ==> v.Holds() in inFlight + One(v.Holds());
    forall c | c in b.counts
      ensures b.counts[c] == |HandlesOn(b.handles, c)| + |ValuesOn(vs, c)| + inFlight[c]
    {
      CountValues(vs, v, c);
    }
    forall c | c in inFlight
      ensures c in b.counts
    {
      assert c in inFlight + One(v.Holds());
    }
  }

  /** Changing one count by one moves one reference into or out of flight. */
  lemma Recounted(b: Ledger, inFlight: multiset<IClip>, c: IClip)
    requires c in b.counts
    ensures Consistent(b, inFlight) ==>
              Consistent(b.(counts := b.counts[c := b.counts[c] + 1]), inFlight + One(c))
    ensures Consistent(b, inFlight + One(c)) ==>
              Consistent(b.(counts := b.counts[c := b.counts[c] - 1]), inFlight)
  {
    assert forall d :: d in inFlight ==> d in inFlight + One(c);
  }

  /** Nothing alive, and nothing in flight, refers to a deleted clip. */
  lemma Alive(b: Ledger, inFlight: multiset<IClip>)
    requires Consistent(b, inFlight)
    ensures forall h :: h in b.handles && h.p != null ==> h.p in b.counts
    ensures forall v :: v in b.values && v.Holds() != null ==> v.Holds() in b.counts
    ensures forall c :: c in inFlight ==> c in b.counts && b.counts[c] > 0
    ensures forall c :: c in b.counts ==> b.counts[c] >= 0
    ensures forall c :: c in b.counts && c.child != null && c != b.open ==> c.child in b.handles
    ensures b.links.Keys == b.counts.Keys
  {
  }

  /** The links of live clips go to live clips. */
  lemma LinksClosed(b: Ledger, inFlight: multiset<IClip>)
    requires Consistent(b, inFlight)
    ensures b.open == null ==> Closed(b.links)
    ensures forall c :: c in b.counts && c != b.open ==> c in b.links && b.links[c] == Below(c)
  {
  }

  /** A clip whose count is zero is referred to by nothing, so it can be deleted. */
  lemma Unreferenced(b: Ledger, inFlight: multiset<IClip>, c: IClip)
    requires Consistent(b, inFlight)
    requires c in b.counts && b.counts[c] == 0 && c != b.open
    ensures Consistent(b.(counts := b.counts - {c}, links := b.links - {c}), inFlight)
  {
    assert HandlesOn(b.handles, c) == {} && ValuesOn(b.values, c) == {} && inFlight[c] == 0;
    forall h | h in b.handles
      ensures h.p != c
    {
      assert h.p == c ==> h in HandlesOn(b.handles, c);
    }
    forall v | v in b.values
      ensures v.Holds() != c
    {
      assert v.Holds() == c ==> v in ValuesOn(b.values, c);
    }
  }

  /** The child handle of a deleted clip dies with it and leaves its reference in flight. */
  lemma ClipDeleted(b: Ledger, inFlight: multiset<IClip>, c: IClip)
    requires Consistent(b, inFlight)
    requires c in b.counts && b.counts[c] == 0 && c != b.open
    ensures var after := b.(counts := b.counts - {c}, handles := b.handles - Children({c}), links := b.links - {c});
            Consistent(after, inFlight + One(Held(c)))
    ensures Children({c}) == if c.child == null then {} else {c.child}
  {
    hide Consistent;
    assert Children({c}) == if c.child == null then {} else {c.child};
    Unreferenced(b, inFlight, c);
    if c.child != null {
      ChildInPlace(b, inFlight, c);
      HandleRemoved(b.(counts := b.counts - {c}, links := b.links - {c}), inFlight, c.child);
    } else {
      assert b.handles - Children({c}) == b.handles;
      assert inFlight + One(null) == inFlight;
    }
  }

  lemma ChildInPlace(b: Ledger, inFlight: multiset<IClip>, c: IClip)
    requires Consistent(b, inFlight) && c in b.counts && c != b.open && c.child != null
    ensures c.child in b.handles && forall d :: d in b.counts && d.child == c.child ==> d == c
  {
  }

  /** A new clip is referred to by nothing yet. */
  lemma ClipEntered(b: Ledger, c: IClip)
    requires Consistent(b, multiset{})
    requires b.open == null && c !in b.counts
    requires c.child != null ==> c.child in b.handles && forall d :: d in b.counts ==> d.child != c.child
    ensures Consistent(b.(counts := b.counts[c := 0], links := b.links[c := Below(c)]), multiset{})
  {
    assert HandlesOn(b.handles, c) == {} && ValuesOn(b.values, c) == {};
  }

  /** A filter is opened with its child handle in place. */
  lemma Opened(b: Ledger, inFlight: multiset<IClip>, owner: IClip?)
    requires Consistent(b, inFlight) && b.open == null
    ensures Consistent(b.(open := owner), inFlight)
  {
  }

  /** And closed, with its new link, once the child handle is back in place. */
  lemma ChildBack(b: Ledger, inFlight: multiset<IClip>, owner: IClip)
    requires Consistent(b, inFlight) && b.open == owner
    requires owner in b.counts && owner.child in b.handles
    ensures Consistent(b.(open := null, links := b.links[owner := Below(owner)]), inFlight)
  {
  }

  lemma ChildrenSplit(clips: set<IClip>, c: IClip, rest: set<IClip>)
    requires c in clips && rest <= clips - {c}
    ensures Children(clips - rest) == Children({c}) + Children(clips - {c} - rest)
    ensures Children({}) == {}
  {
    assert clips - rest == {c} + (clips - {c} - rest);
  }

  lemma NotAChild(cs: set<IClip>, h: PClip)
    requires forall c :: c in cs ==> c.child != h
    ensures h !in Children(cs)
  {
  }

  /** What keeps a filter alive while its child handle is assigned: a handle or a value of the caller, or
      nothing of the kind when its chain does not come back to it or when, still under construction, it is
      not counted yet. */
  datatype Holder = Nobody | ByHandle(h: PClip) | ByValue(v: AVSValue) {
    ghost function Handles(): set<PClip> {
      if ByHandle? then {h} else {}
    }

    ghost function Values(): set<AVSValue> {
      if ByValue? then {v} else {}
    }

    ghost function InFlight(owner: IClip?): multiset<IClip> {
      if Nobody? then multiset{} else One(owner)
    }

    ghost predicate On(owner: IClip?)
      reads Handles(), Values()
    {
      match this
      case Nobody => true
      case ByHandle(h) => owner != null && h.p == owner
      case ByValue(v) => owner != null && v.Holds() == owner
    }

    ghost predicate Keeps(registry: Registry, owner: IClip?)
      reads registry, owner, if owner == null then {} else {owner.child}, Handles(), Values()
    {
      && On(owner) && (owner != null ==> owner in registry.clips)
      && (Nobody? && owner != null ==> owner.refcnt == 0 || !Leads(registry.links, Below(owner), owner))
      && (ByHandle? ==> registry.Free(h))
      && (ByValue? ==> v in registry.values)
    }
  }

  /** While the chains are acyclic every filter may have its child handle assigned, whoever holds it. */
  lemma AssignableWhileAcyclic(registry: Registry, owner: IClip)
    requires registry.Valid() && Acyclic(registry.links) && owner in registry.clips
    ensures Nobody.Keeps(registry, owner)
  {
    hide Acyclic, Leads;
    registry.LinkBelow(owner, multiset{});
    NotBelowItself(registry.links, owner);
  }

  /** A clip; a filter also has a child handle. */
  class IClip {
    var refcnt: int
    const child: PClip?

    constructor (child: PClip?)
      ensures refcnt == 0 && this.child == child
    {
      refcnt := 0;
      this.child := child;
    }

    method AddRef(ghost registry: Registry, ghost inFlight: multiset<IClip>)
      requires registry.Counted(inFlight) && this in registry.clips
      modifies this, registry`counts
      ensures registry.Counted(inFlight + One(this))
      ensures refcnt == old(refcnt) + 1
    {
      hide Consistent;
      Recounted(registry.Books(), inFlight, this);
      refcnt := refcnt + 1;
      registry.counts := registry.counts[this := refcnt];
    }

    /** Gives up one reference in flight; the thread of control that takes the count to zero deletes. */
    method Release(ghost registry: Registry, ghost inFlight: multiset<IClip>)
      requires registry.Counted(inFlight + One(this)) && registry.Pinned(inFlight, this)
      modifies registry, registry.clips
      ensures registry.Counted(inFlight) && registry.open == old(registry.open) && registry.OpenAlive()
      ensures registry.clips <= old(registry.clips) && Sub(registry.links, old(registry.links))
      ensures registry.handles == old(registry.handles) - Children(old(registry.clips) - registry.clips)
      ensures registry.values == old(registry.values)
      ensures forall c :: c in registry.clips && c.refcnt <= 0 ==> old(c.refcnt) <= 0
      ensures old(refcnt) > 1 ==> registry.clips == old(registry.clips) && registry.handles == old(registry.handles)
      ensures forall c :: c in registry.clips ==>
                c.refcnt == old(c.refcnt) - (if c == this then 1 else 0)
                          - |Above(old(registry.links), old(registry.clips) - registry.clips, c)|
      ensures old(refcnt) == 1 ==> this !in registry.clips
      decreases |registry.clips|, 1
    {
      hide Consistent;
      assert this in inFlight + One(this);
      Alive(registry.Books(), inFlight + One(this));
      Recounted(registry.Books(), inFlight, this);
      refcnt := refcnt - 1;
      registry.counts := registry.counts[this := refcnt];
      Alive(registry.Books(), inFlight);
      LeadsToItself(registry.links, this);
      if refcnt == 0 {
        Delete(registry, inFlight);
      }
    }

    /** `delete this`: the child handle is destroyed with the clip and so releases the clip below it. The
        cascade ends because every deletion leaves one live clip less. */
    method Delete(ghost registry: Registry, ghost inFlight: multiset<IClip>)
      requires registry.Counted(inFlight) && registry.Pinned(inFlight, this)
      requires this in registry.clips && refcnt == 0 && this != registry.open
      modifies registry, registry.clips
      ensures registry.Counted(inFlight) && registry.open == old(registry.open) && registry.OpenAlive()
      ensures registry.clips <= old(registry.clips) - {this} && Sub(registry.links, old(registry.links))
      ensures registry.handles == old(registry.handles) - Children(old(registry.clips) - registry.clips)
      ensures registry.values == old(registry.values)
      ensures forall c :: c in registry.clips && c.refcnt <= 0 ==> old(c.refcnt) <= 0
      ensures forall c :: c in registry.clips ==>
                c.refcnt == old(c.refcnt) - |Above(old(registry.links), old(registry.clips) - registry.clips, c)|
      decreases |registry.clips|, 0
    {
      hide Registry.Counted, Leads, Children, Above;
      registry.LinkedKeys(inFlight);
      registry.LinkBelow(this, inFlight);
      registry.Forget(this, inFlight);
      if child != null && child.p != null {
        child.p.Release(registry, inFlight);
      } else {
        assert inFlight + One(null) == inFlight;
        assert old(registry.clips) - {this} - registry.clips == {};
      }
      ChildrenSplit(old(registry.clips), this, registry.clips);
      AboveSplit(old(registry.links), old(registry.clips), this, registry.clips);
    }
  }

  /** A filter that the chain from c does not lead to is not below c either, also when c is gone. */
  lemma StillSpared(after: map<IClip, Link<IClip>>, before: map<IClip, Link<IClip>>, c: IClip, open: IClip?)
    requires c in before && after == before - {c}
    ensures Sub(after, before)
    ensures open != null && !Leads(before, To(c), open) ==> !Leads(after, before[c], open)
  {
    if open != null && Leads(after, before[c], open) {
      SubLeads(after, before, before[c], open);
      LeadsFurther(before, c, open);
    }
  }

  /** The smart pointer to a clip. */
  class PClip {
    var p: IClip?

    /** PClip(IClip*) and, with the source's pointer, the copy constructor. */
    constructor Init(x: IClip?, ghost registry: Registry)
      requires registry.Valid() && (x != null ==> x in registry.clips)
      modifies registry, if x == null then {} else {x}
      ensures registry.Valid()
      ensures p == x && fresh(this)
      ensures registry.handles == old(registry.handles) + {this} && registry.Free(this)
      ensures registry.clips == old(registry.clips) && registry.values == old(registry.values)
      ensures registry.links == old(registry.links)
      ensures x != null ==> x.refcnt == old(x.refcnt) + 1
    {
      hide Consistent;
      p := x;
      new;
      assert multiset{} + One(x) == One(x);
      if x != null {
        x.AddRef(registry, multiset{});
      }
      Alive(registry.Books(), One(x));
      registry.EnterHandle(this, multiset{});
    }

    /** A handle of its own, or the child member of the live filter `owner`. */
    ghost predicate Placed(registry: Registry, owner: IClip?)
      reads registry
    {
      && this in registry.handles && registry.ChildOfNoneBut(this, owner)
      && (owner != null ==> owner in registry.clips && owner.child == this)
    }

    /** operator=(IClip*): the new clip is counted before the old one is released. The handle may be the
        child member of a live filter, `owner`. The chains of children stay acyclic exactly if that of the
        assigned clip does not lead to the owner. */
    method Set(x: IClip?, ghost registry: Registry, ghost owner: IClip?, ghost holder: Holder)
      requires registry.Valid() && Placed(registry, owner)
      requires holder.Keeps(registry, owner) && this !in holder.Handles()
      requires x != null ==> x in registry.clips
      modifies this, registry, registry.clips
      ensures registry.Valid() && Placed(registry, owner)
      ensures p == x
      ensures old(p) == null || old(p) == x || old(p.refcnt) > 1 ==> registry.clips == old(registry.clips)
      ensures old(p) != null && old(p) != x && old(p.refcnt) == 1 ==> old(p) !in registry.clips
      ensures registry.clips <= old(registry.clips) && registry.values == old(registry.values)
      ensures forall c :: c in registry.clips ==>
                c.refcnt == old(c.refcnt) + (if c == x then 1 else 0) - (if c == old(p) then 1 else 0)
                          - |Above(old(registry.links), old(registry.clips) - registry.clips, c)|
      ensures registry.handles == old(registry.handles) - Children(old(registry.clips) - registry.clips)
      ensures forall c :: c in registry.clips && c.refcnt <= 0 ==> old(c.refcnt) <= 0
      ensures old(Acyclic(registry.links)) ==>
                (Acyclic(registry.links) <==> owner == null || !Leads(old(registry.links), Arrow(x), owner))
    {
      hide Registry.Counted, Acyclic, Leads, Closed, Sub, Relinked, Above, Consistent;
      registry.LinkedKeys(multiset{});
      registry.Open(holder, owner);
      Exchange(x, registry, holder.InFlight(owner));
      registry.Close(holder, owner);
      registry.ChainsClosed();
      if old(Acyclic(registry.links)) {
        if owner == null {
          SubAcyclic(registry.links, old(registry.links));
        } else {
          RelinkedAcyclic(registry.links, old(registry.links), owner, Arrow(x));
        }
      }
    }

    /** The source's statements, with the caller's reference on an open filter in flight. */
    method Exchange(x: IClip?, ghost registry: Registry, ghost inFlight: multiset<IClip>)
      requires registry.Counted(inFlight) && registry.Pinned(inFlight, p)
      requires this in registry.handles && registry.ChildOfNoneBut(this, registry.open)
      requires registry.open == null || registry.open.child == this
      requires x != null ==> x in registry.clips
      modifies this, registry, registry.clips
      ensures registry.Counted(inFlight) && registry.open == null
      ensures old(registry.open) == null ==> Sub(registry.links, old(registry.links))
      ensures old(registry.open) != null ==>
                && old(registry.open) in registry.clips
                && Relinked(registry.links, old(registry.links), old(registry.open), Arrow(x))
      ensures p == x
      ensures old(p) == null || old(p) == x || old(p.refcnt) > 1 ==> registry.clips == old(registry.clips)
      ensures old(p) != null && old(p) != x && old(p.refcnt) == 1 ==> old(p) !in registry.clips
      ensures registry.clips <= old(registry.clips) && registry.values == old(registry.values)
      ensures forall c :: c in registry.clips ==>
                c.refcnt == old(c.refcnt) + (if c == x then 1 else 0) - (if c == old(p) then 1 else 0)
                          - |Above(old(registry.links), old(registry.clips) - registry.clips, c)|
      ensures registry.handles == old(registry.handles) - Children(old(registry.clips) - registry.clips)
      ensures forall c :: c in registry.clips && c.refcnt <= 0 ==> old(c.refcnt) <= 0
    {
      hide Registry.Counted, Children, Leads;
      registry.LinkedKeys(inFlight);
      ExchangeReference(x, registry, inFlight);
      NotAChild(old(registry.clips) - registry.clips, this);
      p := x;
      registry.EnterHandle(this, inFlight);
    }

    /** The two conditional calls, in their order. */
    method ExchangeReference(x: IClip?, ghost registry: Registry, ghost inFlight: multiset<IClip>)
      requires registry.Counted(inFlight) && registry.Pinned(inFlight, p)
      requires this in registry.handles && registry.ChildOfNoneBut(this, registry.open)
      requires x != null ==> x in registry.clips
      modifies registry, registry.clips
      ensures registry.Counted(inFlight + One(x)) && registry.open == old(registry.open) && registry.OpenAlive()
      ensures Sub(registry.links, old(registry.links))
      ensures registry.clips <= old(registry.clips) && registry.values == old(registry.values)
      ensures registry.handles == old(registry.handles) - Children(old(registry.clips) - registry.clips) - {this}
      ensures forall c :: c in registry.clips && c.refcnt <= 0 ==> old(c.refcnt) <= 0
      ensures p == null || p == x || old(p.refcnt) > 1 ==> registry.clips == old(registry.clips)
      ensures forall c :: c in registry.clips ==>
                c.refcnt == old(c.refcnt) + (if c == x then 1 else 0) - (if c == p then 1 else 0)
                          - |Above(old(registry.links), old(registry.clips) - registry.clips, c)|
      ensures p != null && p != x && old(p.refcnt) == 1 ==> p !in registry.clips
    {
      hide Consistent, Children, Leads, Sub;
      if p != null {
        registry.HandleKeeps(this, inFlight);
      }
      if x != null {
        x.AddRef(registry, inFlight);
      } else {
        assert inFlight + One(x) == inFlight;
      }
      ReleaseHeld(registry, inFlight + One(x));
    }

    /** operator=(const PClip&). The source may be this handle, or the child handle of the very clip
        that the assignment deletes. */
    method Assign(x: PClip, ghost registry: Registry, ghost owner: IClip?, ghost holder: Holder)
      requires registry.Valid() && Placed(registry, owner) && x in registry.handles
      requires holder.Keeps(registry, owner) && this !in holder.Handles()
      modifies this, registry, registry.clips
      ensures registry.Valid() && Placed(registry, owner)
      ensures p == old(x.p)
      ensures old(p) == null || old(p) == old(x.p) || old(p.refcnt) > 1 ==> registry.clips == old(registry.clips)
      ensures old(p) != null && old(p) != old(x.p) && old(p.refcnt) == 1 ==> old(p) !in registry.clips
      ensures registry.clips <= old(registry.clips) && registry.values == old(registry.values)
      ensures forall c :: c in registry.clips ==>
                c.refcnt == old(c.refcnt) + (if c == old(x.p) then 1 else 0) - (if c == old(p) then 1 else 0)
                          - |Above(old(registry.links), old(registry.clips) - registry.clips, c)|
      ensures registry.handles == old(registry.handles) - Children(old(registry.clips) - registry.clips)
      ensures forall c :: c in registry.clips && c.refcnt <= 0 ==> old(c.refcnt) <= 0
      ensures old(Acyclic(registry.links)) ==>
                (Acyclic(registry.links) <==> owner == null || !Leads(old(registry.links), Arrow(old(x.p)), owner))
    {
      Set(x.p, registry, owner, holder);
    }

    /** ~PClip. */
    method Destroy(ghost registry: Registry)
      requires registry.Valid() && registry.Free(this)
      modifies registry, registry.clips
      ensures registry.Valid()
      ensures registry.clips <= old(registry.clips) && registry.values == old(registry.values)
      ensures registry.handles == old(registry.handles) - Children(old(registry.clips) - registry.clips) - {this}
      ensures forall c :: c in registry.clips && c.refcnt <= 0 ==> old(c.refcnt) <= 0
      ensures old(Acyclic(registry.links)) ==> Acyclic(registry.links)
      ensures p == null || old(p.refcnt) > 1 ==>
                registry.clips == old(registry.clips) && registry.handles == old(registry.handles) - {this}
      ensures forall c :: c in registry.clips ==>
                c.refcnt == old(c.refcnt) - (if c == p then 1 else 0)
                          - |Above(old(registry.links), old(registry.clips) - registry.clips, c)|
      ensures p != null && old(p.refcnt) == 1 ==> p !in registry.clips
    {
      hide Consistent;
      Alive(registry.Books(), multiset{});
      ReleaseHeld(registry, multiset{});
      if old(Acyclic(registry.links)) {
        SubAcyclic(registry.links, old(registry.links));
      }
    }

    /** if (p) p->Release(): this handle stops counting and its reference is given up. */
    method ReleaseHeld(ghost registry: Registry, ghost inFlight: multiset<IClip>)
      requires registry.Counted(inFlight) && registry.Pinned(inFlight, p)
      requires this in registry.handles && registry.ChildOfNoneBut(this, registry.open)
      modifies registry, registry.clips
      ensures registry.Counted(inFlight) && registry.open == old(registry.open) && registry.OpenAlive()
      ensures Sub(registry.links, old(registry.links))
      ensures registry.clips <= old(registry.clips) && registry.values == old(registry.values)
      ensures registry.handles == old(registry.handles) - Children(old(registry.clips) - registry.clips) - {this}
      ensures forall c :: c in registry.clips && c.refcnt <= 0 ==> old(c.refcnt) <= 0
      ensures p == null || old(p.refcnt) > 1 ==>
                registry.clips == old(registry.clips) && registry.handles == old(registry.handles) - {this}
      ensures forall c :: c in registry.clips ==>
                c.refcnt == old(c.refcnt) - (if c == p then 1 else 0)
                          - |Above(old(registry.links), old(registry.clips) - registry.clips, c)|
      ensures p != null && old(p.refcnt) == 1 ==> p !in registry.clips
    {
      hide Consistent;
      Alive(registry.Books(), inFlight);
      registry.LeaveHandle(this, inFlight);
      if p != null {
        p.Release(registry, inFlight);
      } else {
        assert inFlight + One(null) == inFlight;
      }
    }
  }

  /** A clip that is not a filter: it starts uncounted. */
  method NewSource(ghost registry: Registry) returns (c: IClip)
    requires registry.Valid()
    modifies registry
    ensures registry.Valid() && fresh(c) && c.refcnt == 0 && c.child == null
    ensures registry.clips == old(registry.clips) + {c}
    ensures registry.handles == old(registry.handles) && registry.values == old(registry.values)
    ensures old(Acyclic(registry.links)) ==> Acyclic(registry.links)
  {
    c := new IClip(null);
    registry.EnterClip(c);
  }

  /** GenericVideoFilter(PClip _child): the parameter is a copy of the caller's handle, the member a
      copy of the parameter, and the parameter is destroyed at the end; one reference is left. */
  method NewFilter(source: PClip, ghost registry: Registry) returns (c: IClip)
    requires registry.Valid() && source in registry.handles && source.p != null
    modifies registry, registry.clips
    ensures registry.Valid() && fresh(c) && c.refcnt == 0
    ensures c.child != null && fresh(c.child) && c.child.p == source.p
    ensures registry.clips == old(registry.clips) + {c}
    ensures registry.handles == old(registry.handles) + {c.child} && registry.values == old(registry.values)
    ensures source.p.refcnt == old(source.p.refcnt) + 1
    ensures forall d :: d in old(registry.clips) && d != source.p ==> d.refcnt == old(d.refcnt)
    ensures old(Acyclic(registry.links)) ==> Acyclic(registry.links)
  {
    hide Consistent, Acyclic, Registry.Counted, Children;
    registry.Facts();
    var parameter := new PClip.Init(source.p, registry);
    var child := new PClip.Init(parameter.p, registry);
    c := new IClip(child);
    registry.EnterClip(c);
    assert parameter.p == source.p == child.p && source.p.refcnt == old(source.p.refcnt) + 2;
    parameter.Destroy(registry);
  }

  /** The payload word of an AVSValue: a clip pointer or anything else. */
  datatype Payload = Clip(clip: IClip?) | Word(word: int)

  class AVSValue {
    var tag: char
    var arraySize: int
    var payload: Payload

    /** The clip this value keeps a reference to. */
    ghost function Holds(): IClip?
      reads this
    {
      if tag == 'c' && payload.Clip? then payload.clip else null
    }

    /** The constructors: a clip value takes a reference, every other kind just stores its word. */
    constructor Init(tag: char, arraySize: int, payload: Payload, ghost registry: Registry)
      requires registry.Valid()
      requires tag == 'c' ==> payload.Clip? && (payload.clip != null ==> payload.clip in registry.clips)
      modifies registry, registry.clips
      ensures registry.Valid() && fresh(this)
      ensures this.tag == tag && this.arraySize == arraySize && this.payload == payload
      ensures registry.values == old(registry.values) + {this}
      ensures registry.clips == old(registry.clips) && registry.handles == old(registry.handles)
      ensures registry.links == old(registry.links)
      ensures forall c :: c in registry.clips ==>
                c.refcnt == old(c.refcnt) + (if tag == 'c' && payload.clip == c then 1 else 0)
    {
      hide Consistent;
      this.tag, this.arraySize, this.payload := tag, arraySize, payload;
      new;
      Retain(registry);
      registry.EnterValue(this);
    }

    /** if (IsClip() && clip) clip->AddRef(). */
    method Retain(ghost registry: Registry)
      requires registry.Valid()
      requires tag == 'c' ==> payload.Clip? && (payload.clip != null ==> payload.clip in registry.clips)
      modifies registry`counts, registry.clips
      ensures registry.Counted(One(Holds())) && registry.open == null
      ensures forall c :: c in registry.clips ==>
                c.refcnt == old(c.refcnt) + (if tag == 'c' && payload.clip == c then 1 else 0)
    {
      hide Consistent;
      assert multiset{} + One(Holds()) == One(Holds());
      if tag == 'c' && payload.clip != null {
        payload.clip.AddRef(registry, multiset{});
      }
    }

    /** operator=: Assign(src, false). The source may be this value. */
    method Assign(src: AVSValue, ghost registry: Registry)
      requires registry.Valid() && this in registry.values && src in registry.values
      requires tag == 'c' ==> payload.Clip?
      requires src.tag == 'c' ==> src.payload.Clip?
      modifies this, registry, registry.clips
      ensures registry.Valid() && this in registry.values
      ensures tag == old(src.tag) && payload == old(src.payload) && arraySize == old(src.arraySize)
      ensures var x, y := old(if src.tag == 'c' then src.payload.clip else null),
                          old(if tag == 'c' then payload.clip else null);
              && (y == null || y == x || old(y.refcnt) > 1 ==> registry.clips == old(registry.clips))
              && (y != null && y != x && old(y.refcnt) == 1 ==> y !in registry.clips)
      ensures registry.clips <= old(registry.clips) && registry.values == old(registry.values)
      ensures forall c :: c in registry.clips ==>
                c.refcnt == old(c.refcnt) + (if old(src.tag == 'c' && src.payload.clip == c) then 1 else 0)
                          - (if old(tag == 'c' && payload.clip == c) then 1 else 0)
                          - |Above(old(registry.links), old(registry.clips) - registry.clips, c)|
      ensures registry.handles == old(registry.handles) - Children(old(registry.clips) - registry.clips)
      ensures forall c :: c in registry.clips && c.refcnt <= 0 ==> old(c.refcnt) <= 0
      ensures old(Acyclic(registry.links)) ==> Acyclic(registry.links)
    {
      hide Registry.Counted, Acyclic, Sub, Children, One;
      ExchangeReference(src, registry);
      ghost var x := src.Holds();
      payload := src.payload;
      tag := src.tag;
      arraySize := src.arraySize;
      assert Holds() == x;
      registry.EnterValue(this);
      if old(Acyclic(registry.links)) {
        SubAcyclic(registry.links, old(registry.links));
      }
    }

    /** The two conditional calls of Assign, in their order: count the source's clip, then release the
        clip held so far. */
    method ExchangeReference(src: AVSValue, ghost registry: Registry)
      requires registry.Valid() && this in registry.values && src in registry.values
      requires tag == 'c' ==> payload.Clip?
      requires src.tag == 'c' ==> src.payload.Clip?
      modifies registry, registry.clips
      ensures registry.Counted(One(src.Holds())) && registry.open == null
      ensures var x, y := old(if src.tag == 'c' then src.payload.clip else null),
                          old(if tag == 'c' then payload.clip else null);
              && (y == null || y == x || old(y.refcnt) > 1 ==> registry.clips == old(registry.clips))
              && (y != null && y != x && old(y.refcnt) == 1 ==> y !in registry.clips)
      ensures Sub(registry.links, old(registry.links))
      ensures registry.clips <= old(registry.clips) && registry.values == old(registry.values) - {this}
      ensures forall c :: c in registry.clips ==>
                c.refcnt == old(c.refcnt) + (if old(src.tag == 'c' && src.payload.clip == c) then 1 else 0)
                          - (if old(tag == 'c' && payload.clip == c) then 1 else 0)
                          - |Above(old(registry.links), old(registry.clips) - registry.clips, c)|
      ensures registry.handles == old(registry.handles) - Children(old(registry.clips) - registry.clips)
      ensures forall c :: c in registry.clips && c.refcnt <= 0 ==> old(c.refcnt) <= 0
    {
      hide Consistent, Children, Sub, Registry.Counted, One;
      if Holds() != null {
        registry.ValueKeeps(this, multiset{});
      }
      if src.Holds() != null {
        registry.ValueKeeps(src, multiset{});
      }
      src.Retain(registry);
      ReleaseHeld(registry, One(src.Holds()));
    }

    /** ~AVSValue. */
    method Destroy(ghost registry: Registry)
      requires registry.Valid() && this in registry.values
      requires tag == 'c' ==> payload.Clip?
      modifies registry, registry.clips
      ensures registry.Valid()
      ensures var y := if tag == 'c' then payload.clip else null;
              && (y == null || old(y.refcnt) > 1 ==> registry.clips == old(registry.clips))
              && (y != null && old(y.refcnt) == 1 ==> y !in registry.clips)
      ensures registry.clips <= old(registry.clips) && registry.values == old(registry.values) - {this}
      ensures forall c :: c in registry.clips ==>
                c.refcnt == old(c.refcnt) - (if tag == 'c' && payload.clip == c then 1 else 0)
                          - |Above(old(registry.links), old(registry.clips) - registry.clips, c)|
      ensures registry.handles == old(registry.handles) - Children(old(registry.clips) - registry.clips)
      ensures forall c :: c in registry.clips && c.refcnt <= 0 ==> old(c.refcnt) <= 0
      ensures old(Acyclic(registry.links)) ==> Acyclic(registry.links)
    {
      ReleaseHeld(registry, multiset{});
      if old(Acyclic(registry.links)) {
        SubAcyclic(registry.links, old(registry.links));
      }
    }

    /** if (IsClip() && clip) clip->Release(). */
    method ReleaseHeld(ghost registry: Registry, ghost inFlight: multiset<IClip>)
      requires registry.Counted(inFlight) && registry.open == null && this in registry.values
      requires tag == 'c' ==> payload.Clip?
      modifies registry, registry.clips
      ensures registry.Counted(inFlight) && registry.open == null
      ensures var y := if tag == 'c' then payload.clip else null;
              && (y == null || old(y.refcnt) > 1 ==> registry.clips == old(registry.clips))
              && (y != null && old(y.refcnt) == 1 ==> y !in registry.clips)
      ensures Sub(registry.links, old(registry.links))
      ensures registry.clips <= old(registry.clips) && registry.values == old(registry.values) - {this}
      ensures forall c :: c in registry.clips ==>
                c.refcnt == old(c.refcnt) - (if tag == 'c' && payload.clip == c then 1 else 0)
                          - |Above(old(registry.links), old(registry.clips) - registry.clips, c)|
      ensures registry.handles == old(registry.handles) - Children(old(registry.clips) - registry.clips)
      ensures forall c :: c in registry.clips && c.refcnt <= 0 ==> old(c.refcnt) <= 0
    {
      hide Consistent;
      registry.LeaveValue(this, inFlight);
      if tag == 'c' && payload.clip != null {
        payload.clip.Release(registry, inFlight);
      } else {
        assert inFlight + One(null) == inFlight;
      }
    }
  }

  // ----- which clips survive -----

  /** The invariant on the objects themselves: a count is the number of live handles and clip values that
      point to the clip, nothing alive points to a dead clip, child handles are alive and not shared, and the
      links are the pointers of the child handles. */
  lemma CountsAreReferences(registry: Registry)
    requires registry.Valid()
    ensures forall c :: c in registry.clips ==>
              c.refcnt == |set h | h in registry.handles && h.p == c|
                        + |set v | v in registry.values && v.tag == 'c' && v.payload.Clip? && v.payload.clip == c|
    ensures forall h :: h in registry.handles && h.p != null ==> h.p in registry.clips
    ensures forall v :: v in registry.values && v.tag == 'c' && v.payload.Clip? && v.payload.clip != null ==>
              v.payload.clip in registry.clips
    ensures forall c :: c in registry.clips && c.child != null ==> c.child in registry.handles
    ensures forall c, d :: c in registry.clips && d in registry.clips && c.child != null && c.child == d.child ==>
              c == d
    ensures registry.links.Keys == registry.clips
    ensures forall c :: c in registry.clips ==>
              if c.child == null || c.child.p == null then registry.links[c] == End
              else registry.links[c].To? && registry.links[c].next == c.child.p
  {
    forall c | c in registry.clips
      ensures ValuesOn(registry.values, c)
           == set v | v in registry.values && v.tag == 'c' && v.payload.Clip? && v.payload.clip == c
      ensures HandlesOn(registry.handles, c) == set h | h in registry.handles && h.p == c
    {
    }
    forall v | v in registry.values && v.tag == 'c' && v.payload.Clip? && v.payload.clip != null
      ensures v.payload.clip in registry.clips
    {
      assert v.Holds() == v.payload.clip;
    }
  }

  /** A handle that is no child member, or a value, refers to the clip. */
  ghost predicate ReferredFromOutside(registry: Registry, c: IClip)
    reads registry, registry.handles, registry.values
  {
    (exists h :: h in registry.handles && registry.Free(h) && h.p == c)
    || (exists v :: v in registry.values && v.Holds() == c)
  }

  /** What refers to a counted clip, if nothing outside does, is the child handle of another live clip. */
  lemma Referrer(registry: Registry, c: IClip) returns (d: IClip)
    requires registry.Valid() && c in registry.clips && c.refcnt > 0 && !ReferredFromOutside(registry, c)
    ensures d in registry.clips && d in registry.links && registry.links[d] == To(c)
  {
    LinksClosed(registry.Books(), multiset{});
    var hs, vs := HandlesOn(registry.handles, c), ValuesOn(registry.values, c);
    forall v | v in registry.values
      ensures v.Holds() != c
    {
      assert !ReferredFromOutside(registry, c);
    }
    assert vs == {};
    var h :| h in hs;
    assert h in registry.handles && h.p == c && !registry.Free(h);
    d :| d in registry.clips && d.child == h;
  }

  /** Climbing from a clip to the clips above it ends at one that is referred to from outside. */
  lemma {:induction false} Climb(registry: Registry, c: IClip, bound: nat)
    requires registry.Valid() && c in registry.clips
    requires forall d :: d in registry.clips ==> d.refcnt > 0
    requires registry.links.Keys == registry.clips && Acyclic(registry.links)
    requires forall d :: d in registry.clips ==> Height(registry.links, To(d)) <= bound
    ensures exists top ::
              top in registry.clips && ReferredFromOutside(registry, top) && Leads(registry.links, To(top), c)
    decreases bound - Height(registry.links, To(c))
  {
    hide Registry.Counted, ReferredFromOutside, Leads, Steps, Height;
    if ReferredFromOutside(registry, c) {
      LeadsToItself(registry.links, c);
    } else {
      var d := Referrer(registry, c);
      HeightRises(registry.links, d);
      Climb(registry, d, bound);
      var top :| top in registry.clips && ReferredFromOutside(registry, top) && Leads(registry.links, To(top), d);
      LeadsAlong(registry.links, To(top), d);
    }
  }

  /** While the chains of children are acyclic, every live clip lies below a reference from outside. */
  lemma NothingUnreachable(registry: Registry, c: IClip)
    requires registry.Valid() && c in registry.clips && Acyclic(registry.links)
    requires forall d :: d in registry.clips ==> d.refcnt > 0
    ensures exists top ::
              && top in registry.clips && Leads(registry.links, To(top), c)
              && ((exists h :: h in registry.handles && h.p == top && forall d :: d in registry.clips ==> d.child != h)
                  || (exists v :: v in registry.values && v.tag == 'c' && v.payload.Clip? && v.payload.clip == top))
  {
    hide Leads, Steps, Height, Registry.Counted;
    registry.LinkedKeys(multiset{});
    var bound := HeightsBounded(registry.links, registry.clips);
    Climb(registry, c, bound);
    var top :| top in registry.clips && ReferredFromOutside(registry, top) && Leads(registry.links, To(top), c);
    if h :| h in registry.handles && registry.Free(h) && h.p == top {
      assert forall d :: d in registry.clips ==> d.child != h;
    } else {
      var v :| v in registry.values && v.Holds() == top;
      assert v.tag == 'c' && v.payload.Clip? && v.payload.clip == top;
    }
  }

  /** Once no reference from outside is left, the clips are gone exactly if the chains were acyclic. */
  lemma AllGone(registry: Registry)
    requires registry.Valid() && forall c :: c in registry.clips ==> c.refcnt > 0
    requires registry.values == {} && registry.handles == Children(registry.clips)
    ensures registry.clips == {} <==> Acyclic(registry.links)
  {
    hide Leads, Steps, Registry.Counted;
    registry.LinkedKeys(multiset{});
    if Acyclic(registry.links) && registry.clips != {} {
      var c :| c in registry.clips;
      NothingUnreachable(registry, c);
    }
  }

  lemma TwoHandles(registry: Registry, c: IClip, h: PClip, k: PClip)
    requires registry.Valid() && c in registry.clips
    requires h in registry.handles && k in registry.handles && h != k && h.p == c == k.p
    ensures c.refcnt > 1
  {
    var hs := HandlesOn(registry.handles, c);
    assert h in hs && k in hs - {h};
    assert |hs - {h}| == |hs| - 1;
  }

  lemma DistinctChildren(registry: Registry)
    requires registry.Valid()
    ensures forall c, d | c in registry.clips && d in registry.clips && c.child != null && c.child == d.child :: c == d
  {
  }

  lemma ChildrenLeft(all: set<IClip>, rest: set<IClip>)
    requires rest <= all
    requires forall c, d | c in all && d in all && c.child != null && c.child == d.child :: c == d
    ensures Children(all) - Children(all - rest) == Children(rest)
  {
    forall h | h in Children(rest)
      ensures h !in Children(all - rest)
    {
    }
  }

  /** A filter made its own child outlives its last handle: nothing outside refers to it any more. */
  method SelfAssignedChildStays(ghost registry: Registry, f: IClip, k: PClip)
    requires registry.Valid() && registry.values == {}
    requires forall c :: c in registry.clips ==> c.refcnt > 0
    requires f in registry.clips && f.child != null && registry.Free(k) && k.p == f
    requires registry.handles == Children(registry.clips) + {k}
    modifies k, f.child, registry, registry.clips
    ensures registry.Valid() && registry.values == {}
    ensures forall c :: c in registry.clips ==> c.refcnt > 0
    ensures registry.handles == Children(registry.clips)
    ensures f in registry.clips && !Acyclic(registry.links)
  {
    hide Registry.Counted, Consistent, Children, Acyclic, Leads;
    DistinctChildren(registry);
    ChildOfClip(registry.clips, f);
    f.child.Set(f, registry, f, ByHandle(k));
    ChildrenLeft(old(registry.clips), registry.clips);
    NotAChild(old(registry.clips), k);
    NotAChild(registry.clips, k);
    NotAChild(old(registry.clips) - registry.clips, k);
    TwoHandles(registry, f, k, f.child);
    k.Destroy(registry);
    AllGone(registry);
  }

  /** Assigning to a value the clip below the filter that only this value keeps alive does not raise the count of
      the clip: the dying filter gives up its reference. */
  method SourceBelowHeldClip(ghost registry: Registry, v: AVSValue, src: AVSValue, f: IClip, c: IClip)
    requires registry.Valid() && v in registry.values && src in registry.values
    requires v.tag == 'c' && v.payload == Clip(f) && f.refcnt == 1
    requires src.tag == 'c' && src.payload == Clip(c) && c != f
    requires f.child != null && f.child.p == c
    modifies v, registry, registry.clips
    ensures registry.Valid() && v.payload == Clip(c)
    ensures c in registry.clips && c.refcnt <= old(c.refcnt)
  {
    hide Registry.Counted, Consistent, Acyclic, Children, AVSValue.Holds;
    CountsAreReferences(registry);
    v.Assign(src, registry);
    CountsAreReferences(registry);
    assert f in Above(old(registry.links), old(registry.clips) - registry.clips, c);
  }

  lemma ChildOfClip(cs: set<IClip>, c: IClip)
    requires c in cs && c.child != null
    ensures c.child in Children(cs)
  {
  }
}
