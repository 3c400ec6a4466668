/** Chains of links, in which every node has at most one successor: acyclicity, and what storing one link
    does to it. */
module Chains {

  datatype Link<T> = End | To(next: T)

  ghost function Steps<T>(links: map<T, Link<T>>, c: Link<T>, n: nat): Link<T>
    decreases n
  {
    if n == 0 || c.End? then c
    else if c.next in links then Steps(links, links[c.next], n - 1)
    else End
  }

  /** The chain from c passes d. */
  ghost predicate Leads<T>(links: map<T, Link<T>>, c: Link<T>, d: T) {
    exists n: nat :: Steps(links, c, n) == To(d)
  }

  ghost predicate Ends<T>(links: map<T, Link<T>>, c: Link<T>) {
    exists n: nat :: Steps(links, c, n) == End
  }

  ghost predicate Acyclic<T>(links: map<T, Link<T>>) {
    forall c :: c in links ==> Ends(links, To(c))
  }

  ghost predicate Closed<T>(links: map<T, Link<T>>) {
    forall c :: c in links && links[c].To? ==> links[c].next in links
  }

  /** The nodes among the given ones that are linked to c. */
  ghost function Above<T>(links: map<T, Link<T>>, ds: set<T>, c: T): set<T> {
    set d | d in ds && d in links && links[d] == To(c)
  }

  lemma AboveSplit<T>(links: map<T, Link<T>>, all: set<T>, d: T, rest: set<T>)
    requires d in all && d in links && rest <= all - {d}
    ensures forall c :: |Above(links, all - rest, c)|
                        == |Above(links - {d}, all - {d} - rest, c)| + (if links[d] == To(c) then 1 else 0)
    ensures forall c :: Above(links - {d}, {}, c) == {}
  {
    forall c
      ensures |Above(links, all - rest, c)|
              == |Above(links - {d}, all - {d} - rest, c)| + (if links[d] == To(c) then 1 else 0)
    {
      var after := Above(links - {d}, all - {d} - rest, c);
      assert Above(links, all - rest, c) == if links[d] == To(c) then after + {d} else after;
    }
  }

  /** Some nodes are gone, the others keep their links. */
  ghost predicate Sub<T>(after: map<T, Link<T>>, before: map<T, Link<T>>) {
    forall c :: c in after ==> c in before && after[c] == before[c]
  }

  /** Some nodes other than `owner` are gone, and the owner's link is now x. */
  ghost predicate Relinked<T>(after: map<T, Link<T>>, before: map<T, Link<T>>, owner: T, x: Link<T>) {
    && owner in after && owner in before && after[owner] == x
    && forall c :: c in after && c != owner ==> c in before && after[c] == before[c]
  }

  lemma {:induction false} StepsAdd<T>(links: map<T, Link<T>>, c: Link<T>, m: nat, n: nat)
    ensures Steps(links, Steps(links, c, m), n) == Steps(links, c, m + n)
    decreases m
  {
    if m == 0 || c.End? {
    } else if c.next in links {
      StepsAdd(links, links[c.next], m - 1, n);
    }
  }

  lemma LeadsToItself<T>(links: map<T, Link<T>>, c: T)
    ensures Leads(links, To(c), c)
  {
    assert Steps(links, To(c), 0) == To(c);
  }

  lemma LeadsFurther<T>(links: map<T, Link<T>>, c: T, d: T)
    requires c in links && Leads(links, links[c], d)
    ensures Leads(links, To(c), d)
  {
    var n: nat :| Steps(links, links[c], n) == To(d);
    assert Steps(links, To(c), n + 1) == To(d);
  }

  lemma LeadsAlong<T>(links: map<T, Link<T>>, c: Link<T>, d: T)
    requires Leads(links, c, d) && d in links && links[d].To?
    ensures Leads(links, c, links[d].next)
  {
    var n: nat :| Steps(links, c, n) == To(d);
    StepsAdd(links, c, n, 1);
    assert Steps(links, To(d), 1) == links[d];
    assert Steps(links, c, n + 1) == To(links[d].next);
  }

  /** A chain leads along a path of linked nodes, and along nothing else. */
  lemma {:induction false} PathLeads<T>(links: map<T, Link<T>>, path: seq<T>)
    requires path != []
    requires forall i :: 0 <= i < |path| - 1 ==> path[i] in links && links[path[i]] == To(path[i + 1])
    ensures Leads(links, To(path[0]), path[|path| - 1])
    decreases |path|
  {
    if |path| == 1 {
      LeadsToItself(links, path[0]);
    } else {
      PathLeads(links, path[1..]);
      LeadsFurther(links, path[0], path[|path| - 1]);
    }
  }

  lemma LeadsAlongPath<T>(links: map<T, Link<T>>, c: Link<T>, d: T) returns (path: seq<T>)
    requires Leads(links, c, d)
    ensures path != [] && c == To(path[0]) && path[|path| - 1] == d
    ensures forall i :: 0 <= i < |path| - 1 ==> path[i] in links && links[path[i]] == To(path[i + 1])
  {
    var n: nat :| Steps(links, c, n) == To(d);
    path := StepsAlongPath(links, c, d, n);
  }

  lemma {:induction false} StepsAlongPath<T>(links: map<T, Link<T>>, c: Link<T>, d: T, n: nat) returns (path: seq<T>)
    requires Steps(links, c, n) == To(d)
    ensures path != [] && c == To(path[0]) && path[|path| - 1] == d
    ensures forall i :: 0 <= i < |path| - 1 ==> path[i] in links && links[path[i]] == To(path[i + 1])
    decreases n
  {
    if n == 0 {
      path := [d];
    } else {
      var rest := StepsAlongPath(links, links[c.next], d, n - 1);
      path := [c.next] + rest;
    }
  }

  // ----- removal -----

  lemma {:induction false} SubSteps<T>(after: map<T, Link<T>>, before: map<T, Link<T>>, c: Link<T>, n: nat)
    requires Sub(after, before)
    ensures Steps(after, c, n) == Steps(before, c, n) || Steps(after, c, n) == End
    decreases n
  {
    if n == 0 || c.End? {
    } else if c.next in after {
      SubSteps(after, before, after[c.next], n - 1);
    }
  }

  lemma SubLeads<T>(after: map<T, Link<T>>, before: map<T, Link<T>>, c: Link<T>, d: T)
    requires Sub(after, before) && Leads(after, c, d)
    ensures Leads(before, c, d)
  {
    var n: nat :| Steps(after, c, n) == To(d);
    SubSteps(after, before, c, n);
  }

  /** Removing nodes makes no cycle. */
  lemma SubAcyclic<T>(after: map<T, Link<T>>, before: map<T, Link<T>>)
    requires Sub(after, before) && Acyclic(before)
    ensures Acyclic(after)
  {
    forall c | c in after
      ensures Ends(after, To(c))
    {
      var n: nat :| Steps(before, To(c), n) == End;
      SubSteps(after, before, To(c), n);
    }
  }

  // ----- a new node -----

  lemma {:induction false} EnteredSteps<T>(links: map<T, Link<T>>, c: T, link: Link<T>, d: Link<T>, n: nat)
    requires Closed(links) && c !in links && (d.To? ==> d.next in links)
    ensures Steps(links[c := link], d, n) == Steps(links, d, n)
    decreases n
  {
    if n == 0 || d.End? {
    } else {
      EnteredSteps(links, c, link, links[d.next], n - 1);
    }
  }

  /** A new node that nothing refers to makes no cycle. */
  lemma EnteredAcyclic<T>(links: map<T, Link<T>>, c: T, link: Link<T>)
    requires Closed(links) && Acyclic(links) && c !in links && (link.To? ==> link.next in links)
    ensures Acyclic(links[c := link])
  {
    var after := links[c := link];
    forall d | d in after
      ensures Ends(after, To(d))
    {
      var start := if d == c then link else To(d);
      assert Steps(links, End, 0) == End;
      var n: nat :| Steps(links, start, n) == End;
      EnteredSteps(links, c, link, start, n);
      assert d == c ==> Steps(after, To(c), n + 1) == Steps(after, link, n);
    }
  }

  // ----- a stored link -----

  /** Off the owner's chain nothing changes. */
  lemma {:induction false} EndsAvoiding<T>(
    after: map<T, Link<T>>, before: map<T, Link<T>>, owner: T, x: Link<T>, c: Link<T>, n: nat)
    requires Relinked(after, before, owner, x)
    requires Steps(before, c, n) == End && !Leads(before, c, owner)
    ensures Ends(after, c)
    decreases n
  {
    if c.End? {
      assert Steps(after, c, 0) == End;
    } else if c.next !in after {
      assert Steps(after, c, 1) == End;
    } else {
      LeadsToItself(before, c.next);
      if Leads(before, before[c.next], owner) {
        LeadsFurther(before, c.next, owner);
      }
      EndsAvoiding(after, before, owner, x, before[c.next], n - 1);
      var j: nat :| Steps(after, before[c.next], j) == End;
      assert Steps(after, c, j + 1) == End;
    }
  }

  /** A chain that ended still ends, through the new link if it passes the owner. */
  lemma {:induction false} EndsThrough<T>(
    after: map<T, Link<T>>, before: map<T, Link<T>>, owner: T, x: Link<T>, c: Link<T>, n: nat)
    requires Relinked(after, before, owner, x) && Ends(after, x)
    requires Steps(before, c, n) == End
    ensures Ends(after, c)
    decreases n
  {
    if c.End? {
      assert Steps(after, c, 0) == End;
    } else if c.next !in after {
      assert Steps(after, c, 1) == End;
    } else if c.next == owner {
      var j: nat :| Steps(after, x, j) == End;
      assert Steps(after, c, j + 1) == End;
    } else {
      EndsThrough(after, before, owner, x, before[c.next], n - 1);
      var j: nat :| Steps(after, before[c.next], j) == End;
      assert Steps(after, c, j + 1) == End;
    }
  }

  /** A chain that led to the owner still does. */
  lemma {:induction false} LeadsStill<T>(
    after: map<T, Link<T>>, before: map<T, Link<T>>, owner: T, x: Link<T>, c: Link<T>, n: nat)
    requires Relinked(after, before, owner, x) && Closed(after)
    requires Steps(before, c, n) == To(owner) && c.To? && c.next in after
    ensures Leads(after, c, owner)
    decreases n
  {
    if c.next == owner {
      LeadsToItself(after, owner);
    } else {
      LeadsStill(after, before, owner, x, before[c.next], n - 1);
      LeadsFurther(after, c.next, owner);
    }
  }

  lemma {:induction false} CycleNeverEnds<T>(links: map<T, Link<T>>, c: T, p: nat, n: nat)
    requires p > 0 && Steps(links, To(c), p) == To(c)
    ensures Steps(links, To(c), n) != End
    decreases n
  {
    if Steps(links, To(c), n) == End {
      if n < p {
        StepsAdd(links, To(c), n, p - n);
      } else {
        StepsAdd(links, To(c), p, n - p);
        CycleNeverEnds(links, c, p, n - p);
      }
    }
  }

  /** On acyclic chains no node is below itself. */
  lemma NotBelowItself<T>(links: map<T, Link<T>>, c: T)
    requires Acyclic(links) && c in links
    ensures !Leads(links, links[c], c)
  {
    if Leads(links, links[c], c) {
      var n: nat :| Steps(links, links[c], n) == To(c);
      assert Steps(links, To(c), n + 1) == To(c);
      var e: nat :| Steps(links, To(c), e) == End;
      CycleNeverEnds(links, c, n + 1, e);
    }
  }

  /** Storing a link keeps the chains acyclic exactly when the chain stored does not lead back to its
      owner. */
  lemma RelinkedAcyclic<T>(after: map<T, Link<T>>, before: map<T, Link<T>>, owner: T, x: Link<T>)
    requires Relinked(after, before, owner, x) && Closed(after)
    requires Acyclic(before) && (x.To? ==> x.next in before)
    ensures Acyclic(after) <==> !Leads(before, x, owner)
  {
    if Leads(before, x, owner) {
      var n: nat :| Steps(before, x, n) == To(owner);
      LeadsStill(after, before, owner, x, x, n);
      var k: nat :| Steps(after, x, k) == To(owner);
      assert Steps(after, To(owner), k + 1) == To(owner);
      if Acyclic(after) {
        var e: nat :| Steps(after, To(owner), e) == End;
        CycleNeverEnds(after, owner, k + 1, e);
      }
    } else {
      assert Steps(before, End, 0) == End;
      var n: nat :| Steps(before, x, n) == End;
      EndsAvoiding(after, before, owner, x, x, n);
      forall c | c in after
        ensures Ends(after, To(c))
      {
        var m: nat :| Steps(before, To(c), m) == End;
        EndsThrough(after, before, owner, x, To(c), m);
      }
    }
  }

  // ----- heights -----

  /** The number of steps to the end of the chain. */
  ghost function Height<T>(links: map<T, Link<T>>, c: Link<T>): (h: nat)
    requires Ends(links, c)
    ensures Steps(links, c, h) == End
    ensures forall n: nat :: n < h ==> Steps(links, c, n) != End
  {
    var n: nat :| Steps(links, c, n) == End;
    Least(links, c, n)
  }

  ghost function Least<T>(links: map<T, Link<T>>, c: Link<T>, n: nat): (h: nat)
    requires Steps(links, c, n) == End
    ensures Steps(links, c, h) == End
    ensures forall k: nat :: k < h ==> Steps(links, c, k) != End
  {
    if exists k: nat :: k < n && Steps(links, c, k) == End then
      var k: nat :| k < n && Steps(links, c, k) == End;
      Least(links, c, k)
    else
      n
  }

  lemma HeightRises<T>(links: map<T, Link<T>>, c: T)
    requires c in links && Ends(links, To(c)) && Ends(links, links[c])
    ensures Height(links, links[c]) < Height(links, To(c))
  {
    var h := Height(links, To(c));
    assert h > 0;
    assert Steps(links, To(c), h) == Steps(links, links[c], h - 1);
  }

  /** Acyclic chains are those whose nodes can be numbered downward along the links. */
  lemma NumberingOfAcyclic<T>(links: map<T, Link<T>>) returns (rank: map<T, nat>)
    requires Acyclic(links)
    ensures rank.Keys == links.Keys
    ensures forall c :: c in links && links[c].To? && links[c].next in links ==> rank[links[c].next] < rank[c]
  {
    rank := map c | c in links :: Height(links, To(c));
    forall c | c in links && links[c].To? && links[c].next in links
      ensures rank[links[c].next] < rank[c]
    {
      HeightRises(links, c);
    }
  }

  lemma NumberedAcyclic<T>(links: map<T, Link<T>>, rank: map<T, nat>)
    requires rank.Keys == links.Keys
    requires forall c :: c in links && links[c].To? && links[c].next in links ==> rank[links[c].next] < rank[c]
    ensures Acyclic(links)
  {
    forall c | c in links
      ensures Ends(links, To(c))
    {
      NumberedEnds(links, rank, c);
    }
  }

  lemma {:induction false} NumberedEnds<T>(links: map<T, Link<T>>, rank: map<T, nat>, c: T)
    requires rank.Keys == links.Keys && c in links
    requires forall d :: d in links && links[d].To? && links[d].next in links ==> rank[links[d].next] < rank[d]
    ensures Ends(links, To(c))
    decreases rank[c]
  {
    if links[c].To? && links[c].next in links {
      NumberedEnds(links, rank, links[c].next);
      var n: nat :| Steps(links, links[c], n) == End;
      assert Steps(links, To(c), n + 1) == End;
    } else {
      assert Steps(links, To(c), 2) == End;
    }
  }

  lemma {:induction false} HeightsBounded<T>(links: map<T, Link<T>>, cs: set<T>) returns (bound: nat)
    requires forall c :: c in cs ==> Ends(links, To(c))
    ensures forall c :: c in cs ==> Height(links, To(c)) <= bound
    decreases cs
  {
    bound := 0;
    if cs != {} {
      var c :| c in cs;
      var rest := HeightsBounded(links, cs - {c});
      bound := if Height(links, To(c)) <= rest then rest else Height(links, To(c));
      assert forall d :: d in cs ==> d == c || d in cs - {c};
    }
  }
}
