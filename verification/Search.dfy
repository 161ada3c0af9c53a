/** ext4_search.c: the recursive search of the directory graph. */
module Search {
  import opened Bytes
  import opened Super
  import opened Dir
  import opened Extent
  import opened Growth
  import opened Path
  import opened SearchSpec
  import opened SearchTrail
  import opened SearchOrder
  import opened Names

  lemma ReportExtends(a: Trail, d: nat, i: nat, e: DirEntry)
    ensures Extends(a, Reported(a, e, d, i), Position(d, i))
  {
  }

  /** The state after the listing of the directory `n` on top has been closed. */
  ghost predicate LeavesAfter(a: Trail, b: Trail, n: nat) {
    exists c :: Extends(a, c, Directory(n)) && OnTop(c, n) && b == Leave(c)
  }

  /** Visiting `n`, going through it and leaving it extends the trail. */
  lemma EnterAndLeave(t: Trail, u: Trail, n: nat)
    requires n !in t.items && LeavesAfter(Enter(t, n), u, n)
    ensures Extends(t, u, Nowhere) && n in u.items
  {
    var e := Enter(t, n);
    var c :| Extends(e, c, Directory(n)) && OnTop(c, n) && u == Leave(c);
    assert Items(u) == Items(c);
    assert forall x | x in Items(t) :: x in Items(e);
    assert n in Items(e) && e.stack[..|t.stack|] == t.stack;
    assert forall o | o in u.origins && o.0 in t.items :: o.0 in e.items && o.0 != n;
  }

  lemma LeaveListed(a: Trail, b: Trail, n: nat)
    requires Extends(a, b, Directory(n)) && OnTop(b, n)
    ensures LeavesAfter(a, Leave(b), n)
    ensures |Leave(b).stack| == |b.stack| - 1 && Leave(b).items == b.items
    ensures Agrees(b, Leave(b))
  {
  }

  lemma ReachedContained(fs: Fs, start: nat, d: nat)
    requires Geometry(fs) && Searchable(fs, start) && Reachable(fs, start, d)
    ensures Contained(fs, d)
  {
    hide Reachable, Contained;
  }

  lemma ListingIs(fs: Fs, dir: nat)
    requires Geometry(fs)
    ensures Listing(fs, dir) == ListDirectory(fs, dir, Every)
  {
  }

  lemma CorruptStays(e: DirEntry)
    requires Corrupt(e)
    ensures !Descends(e)
  {
  }

  lemma NotDescended(fs: Fs, t: Trail, d: nat, i: nat)
    requires Geometry(fs) && i < |Listing(fs, d).entries| && !Descends(Listing(fs, d).entries[i])
    ensures Followed(fs, t, d, i)
  {
    hide Listing, Descends;
  }

  lemma OwnToured(a: Trail, b: Trail, mode: Mode, e: DirEntry)
    requires b.items == a.items && b.matches == if Reports(mode, e) then a.matches + [e] else a.matches
    ensures Toured(a, b, Tour(a.items, Own(mode, e)))
  {
    hide Reports;
    assert a.matches + [] == a.matches;
  }

  lemma SameTour(a: Trail, b: Trail, c: Trail, r: Tour)
    requires Toured(a, b, r) && c.items == b.items && c.matches == b.matches
    ensures Toured(a, c, r)
  {
  }

  lemma StillOnTop(a: Trail, b: Trail, n: nat)
    requires Extends(a, b, Directory(n)) && OnTop(a, n) && n in a.items
    ensures OnTop(b, n) && n in b.items && b.stack == a.stack && Items(a) <= Items(b)
  {
    ExtendsMeans(a, b, Directory(n));
  }

  /** `struct search_context` and the visited set it points to. */
  class SearchContext {
    const mode: Mode
    const visited: ItemSet
    var depth: nat
    var found: bool
    var status: bool
    var matches: seq<DirEntry>
    ghost var trail: Trail

    /** The fields agree with the trail, whose invariant holds; `bad` is the failure noted so far. */
    ghost predicate Tracks(fs: Fs, start: nat, bad: bool)
      requires Geometry(fs)
      reads this, visited
    {
      && visited.Valid() && trail.items == visited.items && trail.matches == matches
      && depth == |trail.stack|
      && (found <==> matches != [])
      && Inv(fs, start, mode, trail, bad)
    }

    /** The trail is marked hungry exactly if it was before or a request made since then was refused. */
    ghost predicate NotedSince(heap: Heap, from: nat, before: Trail)
      reads this, heap
    {
      from <= heap.requests && (trail.hungry <==> before.hungry || heap.RefusedSince(from))
    }

    constructor (fs: Fs, start: nat, mode: Mode)
      requires Geometry(fs)
      ensures this.mode == mode && fresh(visited)
      ensures Tracks(fs, start, false) && !status && trail == EMPTY
    {
      this.mode := mode;
      visited := new ItemSet();
      depth, found, status, matches := 0, false, false, [];
      trail := EMPTY;
    }

    /** Printing a match. */
    method Report(fs: Fs, start: nat, ghost d: nat, ghost i: nat, e: DirEntry)
      requires Geometry(fs) && Tracks(fs, start, status)
      requires d in trail.items && i < |Listing(fs, d).entries| && Listing(fs, d).entries[i] == e
      requires Reports(mode, e) && (d, i) !in trail.origins
      modifies this`found, this`matches, this`trail
      ensures Tracks(fs, start, status)
      ensures trail == Reported(old(trail), e, d, i)
    {
      hide Inv, Listing;
      ReportKeeps(fs, start, mode, trail, status, d, i);
      found := true;
      matches := matches + [e];
      trail := Reported(trail, e, d, i);
    }

    /** `search_callback` for the entry at position `i` of the listing of `d`. */
    method SearchCallback(heap: Heap, fs: Fs, start: nat, ghost d: nat, ghost i: nat, e: DirEntry)
      requires Geometry(fs) && Searchable(fs, start) && Tracks(fs, start, status)
      requires OnTop(trail, d) && d in trail.items
      requires i < |Listing(fs, d).entries| && Listing(fs, d).entries[i] == e
      requires (d, i) !in trail.origins && (Descends(e) ==> e.inode <= fs.sb.inodesCount)
      modifies this, visited, heap
      ensures Tracks(fs, start, status) && Extends(old(trail), trail, Position(d, i))
      ensures NotedSince(heap, old(heap.requests), old(trail))
      ensures !trail.hungry ==>
                Toured(old(trail), trail, Below(fs, start, mode, |old(trail).stack|, e, old(trail).items))
      ensures Covered(fs, mode, trail, d, i)
      ensures !trail.hungry ==> Followed(fs, trail, d, i)
      ensures old(status) ==> status
      decreases Universe(fs, start) - Items(trail), 1
    {
      hide Inv, Listing, Reachable, Extends, Searchable, Next, Universe, Items, Below, Visit, Descends, Toured;
      ghost var was := trail;
      ExtendsSelf(trail, Position(d, i));
      ReportExtends(trail, d, i, e);
      if Corrupt(e) {
        if mode.Corrupted? {
          Report(fs, start, d, i, e);
        }
        CorruptKeeps(fs, start, mode, trail, status, d, e);
        CorruptStays(e);
        OwnToured(was, trail, mode, e);
        NotFollowed(fs, start, mode, was, trail, e);
        status := true;
        return;
      }
      if Reports(mode, e) {
        Report(fs, start, d, i, e);
      }
      OwnToured(was, trail, mode, e);
      if Descends(e) {
        ChildReachable(fs, start, mode, trail, status, d, i);
        ghost var prior := trail;
        var failed := SearchInode(heap, fs, start, e.inode);
        ExtendsTwice(was, prior, trail, Position(d, i), Nowhere);
        ExtendsMeans(prior, trail, Nowhere);
        if !trail.hungry {
          FollowedOrCut(fs, prior, trail, d, i);
          FollowedBelow(fs, start, mode, was, prior, trail, e);
        }
        if failed {
          status := true;
        }
      } else {
        NotFollowed(fs, start, mode, was, trail, e);
        NotDescended(fs, trail, d, i);
      }
    }

    /** `search_inode_recursive`; the result is true for a nonzero return. */
    method SearchInode(heap: Heap, fs: Fs, start: nat, n: nat) returns (failed: bool)
      requires Geometry(fs) && Searchable(fs, start) && Tracks(fs, start, status)
      requires Reachable(fs, start, n) && InUniverse(fs, start, n) && Next(fs, start, trail, n)
      modifies this, visited, heap
      ensures Tracks(fs, start, status || failed) && Extends(old(trail), trail, Nowhere)
      ensures NotedSince(heap, old(heap.requests), old(trail))
      ensures !trail.hungry ==>
                Toured(old(trail), trail, Visit(fs, start, mode, |old(trail).stack|, n, old(trail).items))
      ensures n in trail.items || trail.hungry || CutBelow(old(trail), trail)
      ensures old(status) ==> status
      ensures n !in old(trail).items && status ==> failed
      decreases Universe(fs, start) - Items(trail), 0
    {
      hide Inv, Listing, Reachable, Extends, LeavesAfter, Items, Shape, InUniverse, Universe, Next, Searchable, OnTop;
      hide Cut, CutBelow, Enter, Visit, SweepListing, Toured;
      ghost var was := trail;
      if depth > DEPTH_LIMIT {
        CutKeeps(fs, start, mode, trail, status);
        trail := Cut(trail);
        VisitedBefore(fs, start, mode, was, trail, n);
        return true;
      }
      var present := visited.Contains(n);
      if present {
        ExtendsSelf(trail, Nowhere);
        VisitedBefore(fs, start, mode, was, trail, n);
        return false;
      }
      var room := visited.Add(heap, n);
      if !room {
        StarveKeeps(fs, start, mode, trail, status);
        trail := trail.(hungry := true);
        return true;
      }
      InvShape(fs, start, mode, trail, status);
      VisitKeeps(fs, start, mode, trail, status, n);
      VisitFrame(fs, start, trail, n);
      trail := Enter(trail, n);
      depth := depth + 1;
      failed := GoThrough(heap, fs, start, n);
      EnterAndLeave(was, trail, n);
      if !trail.hungry {
        VisitedNow(fs, start, mode, was, trail, n);
      }
    }

    /** The part of `search_inode_recursive` between raising and lowering the depth. */
    method GoThrough(heap: Heap, fs: Fs, start: nat, n: nat) returns (failed: bool)
      requires Geometry(fs) && Searchable(fs, start) && Tracks(fs, start, status)
      requires Reachable(fs, start, n) && OnTop(trail, n) && n in trail.items
      requires forall i: nat :: (n, i) !in trail.origins
      modifies this, visited, heap
      ensures Tracks(fs, start, status) && failed == status && (old(status) ==> status)
      ensures NotedSince(heap, old(heap.requests), old(trail))
      ensures LeavesAfter(old(trail), trail, n)
      ensures !trail.hungry ==>
                Toured(old(trail), trail, SweepListing(fs, start, mode, |old(trail).stack|, n, old(trail).items))
      decreases Universe(fs, start) - Items(trail), 3
    {
      hide Inv, Listing, Reachable, Covered, Followed, Extends, LeavesAfter, Leave, Universe, Items;
      hide Contained, Searchable, ListDirectory, Sweep, Toured, Named;
      ReachedContained(fs, start, n);
      ghost var was := trail;
      var scan := ListDirectoryInode(fs, n, Every);
      assert scan == Listing(fs, n) by {
        ListingIs(fs, n);
      }
      ListingNamed(fs, n);
      VisitEntries(heap, fs, start, n, scan.entries);
      ExtendsMeans(was, trail, Directory(n));
      FinishKeeps(fs, start, mode, trail, status, n);
      if !scan.ok {
        status := true;
      }
      LeaveListed(was, trail, n);
      if !trail.hungry {
        SameTour(was, trail, Leave(trail), Sweep(fs, start, mode, |was.stack|, scan.entries, was.items));
      }
      trail := Leave(trail);
      depth := depth - 1;
      return status;
    }

    /** The callbacks that listing the directory `n` makes. */
    method VisitEntries(heap: Heap, fs: Fs, start: nat, ghost n: nat, entries: seq<DirEntry>)
      requires Geometry(fs) && Searchable(fs, start) && Tracks(fs, start, status)
      requires OnTop(trail, n) && n in trail.items && entries == Listing(fs, n).entries && Named(fs, entries)
      requires forall i: nat :: (n, i) !in trail.origins
      modifies this, visited, heap
      ensures Tracks(fs, start, status) && (old(status) ==> status)
      ensures NotedSince(heap, old(heap.requests), old(trail))
      ensures Extends(old(trail), trail, Directory(n))
      ensures forall i: nat | i < |entries| :: Covered(fs, mode, trail, n, i)
      ensures !trail.hungry ==> forall i: nat | i < |entries| :: Followed(fs, trail, n, i)
      ensures !trail.hungry ==>
                Toured(old(trail), trail, Sweep(fs, start, mode, |old(trail).stack|, entries, old(trail).items))
      decreases Universe(fs, start) - Items(trail), 2
    {
      hide Inv, Listing, Reachable, Extends, Searchable, OnTop, Sweep, Below, Named, Toured, Descends, Continued;
      ghost var was, depth := trail, |trail.stack|;
      ghost var whole := Continued(was, Sweep(fs, start, mode, depth, entries, was.items));
      ExtendsSelf(trail, Directory(n));
      assert entries[0..] == entries;
      for k := 0 to |entries|
        invariant Tracks(fs, start, status) && (old(status) ==> status)
        invariant NotedSince(heap, old(heap.requests), was)
        invariant Extends(was, trail, Directory(n))
        invariant forall i: nat | i >= k :: (n, i) !in trail.origins
        invariant forall i: nat | i < k :: Covered(fs, mode, trail, n, i)
        invariant !trail.hungry ==> forall i: nat | i < k :: Followed(fs, trail, n, i)
        invariant Named(fs, entries[k..])
        invariant !trail.hungry ==>
                    whole == Continued(trail, Sweep(fs, start, mode, depth, entries[k..], trail.items))
      {
        ghost var prior := trail;
        StillOnTop(was, prior, n);
        NamedFirst(fs, entries, k);
        SearchCallback(heap, fs, start, n, k, entries[k]);
        ExtendsTwice(was, prior, trail, Directory(n), Position(n, k));
        ExtendsMeans(prior, trail, Position(n, k));
        if !trail.hungry {
          SweptOne(fs, start, mode, depth, entries, k, prior, trail);
        }
        NamedRest(fs, entries, k);
        forall i: nat | i < k
          ensures Covered(fs, mode, trail, n, i)
          ensures !trail.hungry ==> Followed(fs, trail, n, i)
        {
          assert Covered(fs, mode, prior, n, i);
          assert !prior.hungry ==> Followed(fs, prior, n, i);
        }
      }
      if !trail.hungry {
        assert entries[|entries|..] == [];
        SweptAll(fs, start, mode, depth, entries, was, trail);
      }
    }
  }

  /**
   * What a search from `start` has established when it is over. Everything visited is reachable.
   * Unless memory was refused the start was visited, and so was every subdirectory of a visited
   * directory, except that the depth guard may have fired below some: those lie at the end of a
   * path through 1025 different visited directories. The reports are exactly the reportable
   * entries of the visited directories, each made once, and a failure was noted exactly when there
   * was a reason. Everything visited lies within 1025 directories of the start, and unless memory
   * was refused visits and reports come in the order of the depth-first tour.
   */
  ghost predicate Outcome(fs: Fs, start: nat, mode: Mode, t: Trail, failed: bool)
    requires Geometry(fs)
  {
    && DuplicateFree(t.items)
    && (forall x | x in t.items :: Reachable(fs, start, x) && Near(fs, start, x))
    && (!t.hungry ==>
          && start in t.items && Tour(t.items, t.matches) == Visit(fs, start, mode, 0, start, [])
          && forall d: nat, i: nat | d in t.items && i < |Listing(fs, d).entries| :: Followed(fs, t, d, i))
    && (forall d | d in t.cut :: d in t.items && DeepAt(fs, start, d, t.items))
    && |t.matches| == |t.origins| && DuplicateFree(t.origins)
    && (forall k | 0 <= k < |t.matches| :: IsOrigin(fs, mode, t, t.matches[k], t.origins[k]))
    && (forall d: nat, i: nat ::
          (d, i) in t.origins <==>
          d in t.items && i < |Listing(fs, d).entries| && Reports(mode, Listing(fs, d).entries[i]))
    && (failed <==> !Complete(t) || exists d :: d in t.items && !Listing(fs, d).ok)
  }

  lemma OutcomeReached(fs: Fs, start: nat, mode: Mode, t: Trail, failed: bool)
    requires Geometry(fs) && Inv(fs, start, mode, t, failed) && t.stack == []
    requires !t.hungry ==> start in t.items && Toured(EMPTY, t, Visit(fs, start, mode, 0, start, []))
    ensures Outcome(fs, start, mode, t, failed)
  {
    hide Listing, Reports, Reachable, Near, Descends, DeepAt, Followed, Visit;
    FinishedSearch(fs, start, mode, t, failed);
    forall d: nat, i: nat
      ensures (d, i) in t.origins <==>
              d in t.items && i < |Listing(fs, d).entries| && Reports(mode, Listing(fs, d).entries[i])
    {
      ReportsAreExact(fs, start, mode, t, failed, d, i);
    }
  }

  /** With memory enough, every path to a directory that was missed leads through a cut. */
  lemma MissedDirectories(fs: Fs, start: nat, mode: Mode, t: Trail, failed: bool, p: seq<nat>, x: nat)
    requires Geometry(fs) && Outcome(fs, start, mode, t, failed) && !t.hungry
    requires IsPath(fs, p, start, x) && x !in t.items
    ensures exists d :: d in p && d in t.cut && DeepAt(fs, start, d, t.items)
  {
    hide Listing, Reports, Reachable, Near, Descends, DeepAt, IsPath, Followed, Visit;
    MissedBehindCut(fs, t, p, start, x);
  }

  /**
   * The depth guard stays silent when no path from the start leads through more than 1024 different
   * directories, however many there are; in particular when at most 1024 inodes are reachable.
   */
  lemma GuardStaysSilent(fs: Fs, start: nat, mode: Mode, t: Trail, failed: bool)
    requires Geometry(fs) && Outcome(fs, start, mode, t, failed)
    ensures !TooDeep(fs, start) ==> t.cut == {}
    ensures forall within: set<nat> ::
              (forall x | Reachable(fs, start, x) :: x in within) && |within| <= DEPTH_LIMIT ==> t.cut == {}
  {
    hide Reachable, Near, Listing, Reports, TooDeep, DeepAt, Followed, Visit;
    if t.cut != {} {
      var d :| d in t.cut;
      DeepIsTooDeep(fs, start, d, t.items);
    }
    forall within: set<nat> | (forall x | Reachable(fs, start, x) :: x in within) && |within| <= DEPTH_LIMIT
      ensures !TooDeep(fs, start)
    {
      FewAreShallow(fs, start, within);
    }
  }

  lemma FewAreShallow(fs: Fs, start: nat, within: set<nat>)
    requires Geometry(fs)
    requires (forall x | Reachable(fs, start, x) :: x in within) && |within| <= DEPTH_LIMIT
    ensures !TooDeep(fs, start)
  {
    hide Edge, Reachable;
    forall p: seq<nat> | p != [] && IsPath(fs, p, start, p[|p| - 1]) && DuplicateFree(p)
      ensures |p| <= DEPTH_LIMIT
    {
      forall k | 0 <= k < |p|
        ensures p[k] in within
      {
        OnPathReachable(fs, start, p, k);
      }
      SetOfSeqSize(p);
      SubsetSize(ElementsOf(p), within);
    }
  }

  lemma OnPathReachable(fs: Fs, start: nat, p: seq<nat>, k: nat)
    requires Geometry(fs) && k < |p| && IsPath(fs, p, start, p[|p| - 1])
    ensures Reachable(fs, start, p[k])
  {
    hide Edge;
    var q := p[..k + 1];
    assert forall i | 0 <= i < |q| - 1 :: Edge(fs, p[i], p[i + 1]);
    assert IsPath(fs, q, start, p[k]);
  }

  lemma AllVisited(fs: Fs, start: nat, mode: Mode, t: Trail, failed: bool)
    requires Geometry(fs) && Outcome(fs, start, mode, t, failed) && Complete(t)
    ensures forall x | Reachable(fs, start, x) :: x in t.items
  {
    hide Listing, Reports, DeepAt, IsPath, Followed, Near, Visit;
    forall x | Reachable(fs, start, x)
      ensures x in t.items
    {
      var p :| IsPath(fs, p, start, x);
      if x !in t.items {
        MissedDirectories(fs, start, mode, t, failed, p, x);
      }
    }
  }

  /**
   * A search that memory and depth guard let run visits exactly the reachable directories and
   * reports exactly their matching entries, each once, whether or not it notes a failure.
   */
  lemma CompleteSearch(fs: Fs, start: nat, mode: Mode, t: Trail, failed: bool)
    requires Geometry(fs) && Outcome(fs, start, mode, t, failed) && Complete(t)
    ensures forall x :: x in t.items <==> Reachable(fs, start, x)
    ensures forall d: nat, i: nat ::
              (d, i) in t.origins <==>
              Reachable(fs, start, d) && i < |Listing(fs, d).entries| && Reports(mode, Listing(fs, d).entries[i])
    ensures forall e ::
              e in t.matches <==>
              Reports(mode, e) && exists d :: Reachable(fs, start, d) && e in Listing(fs, d).entries
  {
    hide Reachable, Near, Listing, Reports, DeepAt, Followed, IsOrigin, Visit;
    AllVisited(fs, start, mode, t, failed);
    forall e
      ensures e in t.matches <==>
              Reports(mode, e) && exists d :: Reachable(fs, start, d) && e in Listing(fs, d).entries
    {
      MatchesAreListed(fs, start, mode, t, failed, e);
    }
  }

  lemma MatchesAreListed(fs: Fs, start: nat, mode: Mode, t: Trail, failed: bool, e: DirEntry)
    requires Geometry(fs) && Outcome(fs, start, mode, t, failed)
    ensures e in t.matches <==> Reports(mode, e) && exists d :: d in t.items && e in Listing(fs, d).entries
  {
    hide Reachable, Near, Listing, Reports, DeepAt, Followed, Visit;
    if e in t.matches {
      var k :| 0 <= k < |t.matches| && t.matches[k] == e;
      assert IsOrigin(fs, mode, t, t.matches[k], t.origins[k]);
      assert t.origins[k].0 in t.items && e in Listing(fs, t.origins[k].0).entries;
    }
    if d :| d in t.items && Reports(mode, e) && e in Listing(fs, d).entries {
      var i :| 0 <= i < |Listing(fs, d).entries| && Listing(fs, d).entries[i] == e;
      assert (d, i) in t.origins;
      var k :| 0 <= k < |t.origins| && t.origins[k] == (d, i);
      assert IsOrigin(fs, mode, t, t.matches[k], t.origins[k]);
    }
  }

  /** What a complete search reports in each mode, by the fields of the entries. */
  lemma ReportedByMode(fs: Fs, start: nat, mode: Mode, t: Trail, failed: bool, e: DirEntry)
    requires Geometry(fs) && Outcome(fs, start, mode, t, failed) && Complete(t)
    ensures e in t.matches <==>
            && (exists d :: Reachable(fs, start, d) && e in Listing(fs, d).entries)
            && match mode
               case ByName(name) => if 0 in name then Reports(mode, e) else e.fault == None && CutIs(e.name, name)
               case ByInode(inode) => e.fault == None && e.inode == inode
               case Corrupted => e.fault != None
  {
    CompleteSearch(fs, start, mode, t, failed);
    hide Outcome, Reachable, Listing, Reports, CutIs;
    ReportsMeans(mode, e);
  }

  /** Whatever is visited besides the start is entered through an entry other than "." and "..". */
  lemma EnteredByEntry(fs: Fs, start: nat, mode: Mode, t: Trail, failed: bool, x: nat)
    requires Geometry(fs) && Outcome(fs, start, mode, t, failed) && x in t.items && x != start
    ensures exists d, e :: Reachable(fs, start, d) && EntersBy(fs, d, e, x)
  {
    assert Reachable(fs, start, x);
    hide Outcome, Edge, Listing, Reachable, CutIs;
    var d := LastEdge(fs, start, x);
    EdgeMeans(fs, d, x);
    var e :| e in Listing(fs, d).entries && e.fault == None && e.inode == x && LeadsDown(e.fileType, e.name);
    assert EntersBy(fs, d, e, x);
  }

  /** Intact entry `e` of directory `d` leads to `x`, and is neither "." nor "..". */
  ghost predicate EntersBy(fs: Fs, d: nat, e: DirEntry, x: nat)
    requires Geometry(fs)
  {
    && e in Listing(fs, d).entries && e.fault == None && e.inode == x && e.fileType == 2
    && !CutIs(e.name, [0x2E]) && !CutIs(e.name, [0x2E, 0x2E])
  }

  /** A directory that is only ever named ".." below the start, such as its parent, is not visited. */
  lemma ParentNotVisited(fs: Fs, start: nat, mode: Mode, t: Trail, failed: bool, parent: nat)
    requires Geometry(fs) && Outcome(fs, start, mode, t, failed) && parent != start
    requires forall d, e | Reachable(fs, start, d) && e in Listing(fs, d).entries && e.inode == parent ::
               CutIs(e.name, [0x2E, 0x2E])
    ensures parent !in t.items
  {
    hide Outcome, Reachable, Listing, CutIs;
    if parent in t.items {
      EnteredByEntry(fs, start, mode, t, failed, parent);
    }
  }

  /** A search that returns without failure has covered the whole reachable graph and seen no defect in it. */
  lemma SuccessMeansCovered(fs: Fs, start: nat, mode: Mode, t: Trail, failed: bool)
    requires Geometry(fs) && Outcome(fs, start, mode, t, failed)
    ensures !failed <==>
            Complete(t) && forall d | Reachable(fs, start, d) :: Listing(fs, d).ok
  {
    hide Reachable, Near, Listing, Reports, DeepAt, Followed, Visit;
    if Complete(t) {
      AllVisited(fs, start, mode, t, failed);
    }
  }

  /** A directory more than 1025 directories away is never visited; if there is one, the search is cut short. */
  lemma FarIsMissed(fs: Fs, start: nat, mode: Mode, t: Trail, failed: bool, x: nat)
    requires Geometry(fs) && Outcome(fs, start, mode, t, failed)
    requires Reachable(fs, start, x) && !Near(fs, start, x)
    ensures x !in t.items && !Complete(t) && failed
  {
    hide Reachable, Near, Listing, Reports, DeepAt, Followed, Visit;
    if Complete(t) {
      AllVisited(fs, start, mode, t, failed);
    }
  }

  /** Neither resolving the path nor searching from where it leads reads past the end of an extent node. */
  ghost predicate Tame(fs: Fs, path: seq<byte>)
    requires Geometry(fs)
  {
    && ContainedAlong(fs, Some(Origin(ROOT_INO, path)), Components(path))
    && (Resolve(fs, ROOT_INO, path).Some? ==> Searchable(fs, Resolve(fs, ROOT_INO, path).value))
  }

  /** With blocks of 4096 bytes or more every path is tame. */
  lemma LargeBlocksTame(fs: Fs, path: seq<byte>)
    requires Geometry(fs) && fs.blockSize >= 4096
    ensures Tame(fs, path)
  {
    hide Contained, Resolve, Components, Follow, Reachable;
    forall d: nat
      ensures Contained(fs, d)
    {
      DirectoryContained(fs, d);
    }
  }

  /**
   * `run_search`: the C return value, and the context unless the start could not be resolved. The
   * trail is marked hungry exactly when a request for memory was refused.
   */
  method RunSearch(heap: Heap, fs: Fs, path: seq<byte>, mode: Mode)
    returns (code: nat, context: SearchContext?, ghost failed: bool)
    requires Geometry(fs) && Tame(fs, path)
    modifies heap
    ensures Resolve(fs, ROOT_INO, path) == None <==> context == null
    ensures context == null ==> code == 1
    ensures context != null ==>
              && fresh(context) && context.mode == mode && context.matches == context.trail.matches
              && Outcome(fs, Resolve(fs, ROOT_INO, path).value, mode, context.trail, failed)
              && (context.trail.hungry <==> heap.RefusedSince(old(heap.requests)))
              && code == if mode.Corrupted? && context.matches != [] then 0 else if failed then 1 else 0
    ensures context != null && !heap.RefusedSince(old(heap.requests)) ==>
              var start := Resolve(fs, ROOT_INO, path).value;
              !TooDeep(fs, start) ==>
                && (forall x :: x in context.trail.items <==> Reachable(fs, start, x))
                && (forall e ::
                      e in context.matches <==>
                      Reports(mode, e) && exists d :: Reachable(fs, start, d) && e in Listing(fs, d).entries)
  {
    hide Inv, Outcome, Listing, Reachable, Resolve, TooDeep, Searchable, ContainedAlong, Components, Reports;
    hide Visit;
    var start := ResolvePath(fs, ROOT_INO, path);
    if start == None {
      return 1, null, true;
    }
    context := new SearchContext(fs, start.value, mode);
    ReachesSelf(fs, start.value);
    var status := context.SearchInode(heap, fs, start.value, start.value);
    failed := status;
    EmptyStack(context.trail);
    OutcomeReached(fs, start.value, mode, context.trail, failed);
    GuardStaysSilent(fs, start.value, mode, context.trail, failed);
    if Complete(context.trail) {
      CompleteSearch(fs, start.value, mode, context.trail, failed);
    }
    if mode.Corrupted? {
      code := if context.found then 0 else if status then 1 else 0;
    } else if status {
      code := 1;
    } else {
      // Here the source returns the context's status, which is clear.
      assert !context.status;
      code := 0;
    }
  }

  lemma EmptyStack(t: Trail)
    requires Extends(EMPTY, t, Nowhere)
    ensures t.stack == []
  {
  }
}
