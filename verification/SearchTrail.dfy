/** The ghost record of a search in progress, its invariant, and the steps that keep it. */
module SearchTrail {
  import opened Super
  import opened Dir
  import opened Growth
  import opened SearchSpec

  /**
   * `items` are the visited inodes, `stack` those whose listing is under way, outermost first,
   * `matches` the entries reported so far and `origins` where each came from (directory, position).
   * `cut` are the directories below which the depth guard fired, and `hungry` tells that the
   * visited set could not grow.
   */
  datatype Trail = Trail(items: seq<nat>, stack: seq<nat>, matches: seq<DirEntry>, origins: seq<(nat, nat)>,
                         cut: set<nat>, hungry: bool)

  const EMPTY := Trail([], [], [], [], {}, false)

  function ElementsOf(s: seq<nat>): (r: set<nat>)
    ensures forall x :: x in r <==> x in s
  {
    set x | x in s
  }

  function Items(t: Trail): set<nat> {
    ElementsOf(t.items)
  }

  /** The listing of `d` has been gone through. */
  predicate Listed(t: Trail, d: nat) {
    d in t.items && d !in t.stack
  }

  predicate OnTop(t: Trail, d: nat) {
    t.stack != [] && t.stack[|t.stack| - 1] == d
  }

  /** The trail after visiting `n`, with a frame for it. */
  function Enter(t: Trail, n: nat): Trail {
    t.(items := t.items + [n], stack := t.stack + [n])
  }

  /** The trail after the frame on top has returned. */
  function Leave(t: Trail): Trail
    requires t.stack != []
  {
    t.(stack := t.stack[..|t.stack| - 1])
  }

  function Reported(t: Trail, e: DirEntry, d: nat, i: nat): Trail {
    t.(matches := t.matches + [e], origins := t.origins + [(d, i)])
  }

  predicate Complete(t: Trail) {
    t.cut == {} && !t.hungry
  }

  predicate InUniverse(fs: Fs, start: nat, x: nat) {
    x == start || x <= fs.sb.inodesCount
  }

  function UpTo(n: nat): (r: set<nat>)
    ensures forall x: nat :: x in r <==> x <= n
  {
    if n == 0 then {0} else UpTo(n - 1) + {n}
  }

  /** The inodes a search can possibly visit. */
  function Universe(fs: Fs, start: nat): (r: set<nat>)
    ensures forall x: nat :: x in r <==> InUniverse(fs, start, x)
  {
    {start} + UpTo(fs.sb.inodesCount)
  }

  ghost predicate Shape(t: Trail) {
    && DuplicateFree(t.items) && DuplicateFree(t.stack) && |t.stack| <= DEPTH_LIMIT + 1
    && forall x | x in t.stack :: x in t.items
  }

  /** The frames follow the entries of the directory graph from the start down. */
  ghost predicate Descent(fs: Fs, start: nat, stack: seq<nat>)
    requires Geometry(fs)
  {
    stack != [] ==> IsPath(fs, stack, start, stack[|stack| - 1])
  }

  ghost predicate Reached(fs: Fs, start: nat, t: Trail)
    requires Geometry(fs)
  {
    && (forall x | x in t.items :: Reachable(fs, start, x) && Near(fs, start, x) && InUniverse(fs, start, x))
    && Descent(fs, start, t.stack)
    && (forall d | d in t.cut :: d in t.items && DeepAt(fs, start, d, t.items))
  }

  /** A subdirectory listed at position `i` of `d` has been visited, unless the guard fired below `d`. */
  predicate Followed(fs: Fs, t: Trail, d: nat, i: nat)
    requires Geometry(fs) && i < |Listing(fs, d).entries|
  {
    Descends(Listing(fs, d).entries[i]) ==> Listing(fs, d).entries[i].inode in t.items || d in t.cut
  }

  ghost predicate Closed(fs: Fs, t: Trail)
    requires Geometry(fs)
  {
    !t.hungry ==> forall d: nat, i: nat | Listed(t, d) && i < |Listing(fs, d).entries| :: Followed(fs, t, d, i)
  }

  predicate IsOrigin(fs: Fs, mode: Mode, t: Trail, e: DirEntry, o: (nat, nat))
    requires Geometry(fs)
  {
    o.0 in t.items && o.1 < |Listing(fs, o.0).entries| && Listing(fs, o.0).entries[o.1] == e && Reports(mode, e)
  }

  /** If position `i` of `d` is to be reported, it has been. */
  predicate Covered(fs: Fs, mode: Mode, t: Trail, d: nat, i: nat)
    requires Geometry(fs) && i < |Listing(fs, d).entries|
  {
    Reports(mode, Listing(fs, d).entries[i]) ==> (d, i) in t.origins
  }

  ghost predicate Exact(fs: Fs, mode: Mode, t: Trail)
    requires Geometry(fs)
  {
    && |t.matches| == |t.origins| && DuplicateFree(t.origins)
    && (forall k | 0 <= k < |t.matches| :: IsOrigin(fs, mode, t, t.matches[k], t.origins[k]))
    && (forall d: nat, i: nat | Listed(t, d) && i < |Listing(fs, d).entries| :: Covered(fs, mode, t, d, i))
  }

  ghost predicate Judged(fs: Fs, t: Trail, bad: bool)
    requires Geometry(fs)
  {
    && (!bad ==> Complete(t) && forall d | Listed(t, d) :: Listing(fs, d).ok)
    && (bad ==> !Complete(t) || exists d :: d in t.items && !Listing(fs, d).ok)
  }

  /** The invariant; `bad` tells whether a failure has been noted. */
  ghost predicate Inv(fs: Fs, start: nat, mode: Mode, t: Trail, bad: bool)
    requires Geometry(fs)
  {
    Shape(t) && Reached(fs, start, t) && Closed(fs, t) && Exact(fs, mode, t) && Judged(fs, t, bad)
  }

  lemma InvShape(fs: Fs, start: nat, mode: Mode, t: Trail, bad: bool)
    requires Geometry(fs) && Inv(fs, start, mode, t, bad)
    ensures Shape(t)
    ensures forall o | o in t.origins :: o.0 in t.items
  {
    hide Listing, Reports, Covered, DuplicateFree;
    forall o | o in t.origins
      ensures o.0 in t.items
    {
      OriginVisited(fs, mode, t, o);
    }
  }

  /** The positions of visited directories that a part of the search may report on. */
  datatype Scope = Nowhere | Position(dir: nat, index: nat) | Directory(dir: nat)

  predicate Within(scope: Scope, o: (nat, nat)) {
    match scope
    case Nowhere => false
    case Position(d, i) => o == (d, i)
    case Directory(d) => o.0 == d
  }

  /** What a part of the search leaves alone: it adds reports on old directories only within its scope. */
  ghost predicate Extends(a: Trail, b: Trail, scope: Scope) {
    && Items(a) <= Items(b) && b.stack == a.stack && a.cut <= b.cut && (a.hungry ==> b.hungry)
    && (forall o | o in a.origins :: o in b.origins)
    && (forall o | o in b.origins && o.0 in a.items :: o in a.origins || Within(scope, o))
  }

  lemma ExtendsSelf(a: Trail, scope: Scope)
    ensures Extends(a, a, scope)
  {
  }

  lemma ExtendsTwice(a: Trail, b: Trail, c: Trail, wide: Scope, scope: Scope)
    requires Extends(a, b, wide) && Extends(b, c, scope) && forall o | Within(scope, o) :: Within(wide, o)
    ensures Extends(a, c, wide)
  {
    hide Within;
    assert forall x | x in a.items :: x in Items(a);
    assert forall x | x in Items(b) :: x in b.items;
  }

  /** What a caller needs to know of an extension. */
  lemma ExtendsMeans(a: Trail, b: Trail, scope: Scope)
    requires Extends(a, b, scope)
    ensures b.stack == a.stack && a.cut <= b.cut && (a.hungry ==> b.hungry)
    ensures forall x | x in a.items :: x in b.items
    ensures forall o | o in a.origins :: o in b.origins
    ensures forall o | o in b.origins && o.0 in a.items :: o in a.origins || Within(scope, o)
  {
    hide Within;
    assert forall x | x in a.items :: x in Items(a);
    assert forall x | x in Items(b) :: x in b.items;
  }

  // The steps.

  /** A step that only adds visited inodes, or notes a failure, keeps what was established before. */
  ghost predicate Grows(t: Trail, u: Trail) {
    && u.matches == t.matches && u.origins == t.origins
    && (forall x | x in t.items :: x in u.items) && (forall d | Listed(u, d) :: Listed(t, d))
    && t.cut <= u.cut && (t.hungry ==> u.hungry)
  }

  lemma GrowsKeeps(fs: Fs, start: nat, mode: Mode, t: Trail, u: Trail, bad: bool, worse: bool)
    requires Geometry(fs) && Inv(fs, start, mode, t, bad) && Grows(t, u) && (bad ==> worse)
    requires Shape(u) && Reached(fs, start, u)
    requires (!worse ==> Complete(u)) && (worse && !bad ==> !Complete(u))
    ensures Inv(fs, start, mode, u, worse)
  {
    hide Reachable, Near, Listing, Reports, Descends;
    forall k | 0 <= k < |u.matches|
      ensures IsOrigin(fs, mode, u, u.matches[k], u.origins[k])
    {
      assert IsOrigin(fs, mode, t, t.matches[k], t.origins[k]);
    }
    forall d: nat, i: nat | Listed(u, d) && i < |Listing(fs, d).entries|
      ensures Covered(fs, mode, u, d, i) && (!u.hungry ==> Followed(fs, u, d, i))
    {
      assert Covered(fs, mode, t, d, i);
      assert !t.hungry ==> Followed(fs, t, d, i);
    }
  }

  /** `n` is where the search starts, or a directory entered from the frame on top. */
  ghost predicate Next(fs: Fs, start: nat, t: Trail, n: nat)
    requires Geometry(fs)
  {
    if t.stack == [] then n == start else Edge(fs, t.stack[|t.stack| - 1], n)
  }

  lemma DescentNext(fs: Fs, start: nat, t: Trail, n: nat)
    requires Geometry(fs) && Descent(fs, start, t.stack) && Next(fs, start, t, n)
    ensures Descent(fs, start, t.stack + [n])
    ensures |t.stack| <= DEPTH_LIMIT ==> Near(fs, start, n)
  {
    hide Edge;
    var p := t.stack + [n];
    assert forall i | 0 <= i < |p| - 1 :: Edge(fs, p[i], p[i + 1]);
    assert IsPath(fs, p, start, n);
  }

  lemma VisitKeeps(fs: Fs, start: nat, mode: Mode, t: Trail, bad: bool, n: nat)
    requires Geometry(fs) && Inv(fs, start, mode, t, bad) && Next(fs, start, t, n)
    requires n !in t.items && Reachable(fs, start, n) && InUniverse(fs, start, n) && |t.stack| <= DEPTH_LIMIT
    ensures Inv(fs, start, mode, Enter(t, n), bad)
  {
    hide Reachable, Near, Listing, Reports, Descends, Closed, Exact, Descent, Next, DeepAt, Judged;
    var u := Enter(t, n);
    DuplicateFreeAppend(t.items, n);
    DuplicateFreeAppend(t.stack, n);
    DescentNext(fs, start, t, n);
    assert Items(u) == Items(t) + {n};
    JudgedMeans(fs, t, bad);
    forall d | d in u.cut
      ensures d in u.items && DeepAt(fs, start, d, u.items)
    {
      DeepLater(fs, start, d, t.items, u.items);
    }
    GrowsKeeps(fs, start, mode, t, u, bad, bad);
  }

  lemma JudgedMeans(fs: Fs, t: Trail, bad: bool)
    requires Geometry(fs) && Judged(fs, t, bad)
    ensures !bad ==> Complete(t)
  {
  }

  lemma VisitFrame(fs: Fs, start: nat, t: Trail, n: nat)
    requires n !in t.items && InUniverse(fs, start, n)
    ensures OnTop(Enter(t, n), n) && Agrees(t, Enter(t, n))
    ensures Enter(t, n).items == t.items + [n] && |Enter(t, n).stack| == |t.stack| + 1
    ensures Items(Enter(t, n)) == Items(t) + {n}
    ensures Universe(fs, start) - Items(Enter(t, n)) < Universe(fs, start) - Items(t)
  {
    assert Items(Enter(t, n)) == Items(t) + {n};
    assert n in Universe(fs, start) - Items(t);
  }

  /** Only visited directories have been reported on. */
  lemma OriginVisited(fs: Fs, mode: Mode, t: Trail, o: (nat, nat))
    requires Geometry(fs) && Exact(fs, mode, t)
    ensures o in t.origins ==> o.0 in t.items
  {
    hide Listing, Reports, Covered, DuplicateFree;
    if o in t.origins {
      var k :| 0 <= k < |t.origins| && t.origins[k] == o;
      assert IsOrigin(fs, mode, t, t.matches[k], t.origins[k]);
    }
  }

  /** The guard has fired below the directory that was on top in `a`. */
  predicate CutBelow(a: Trail, b: Trail) {
    a.stack != [] && a.stack[|a.stack| - 1] in b.cut
  }

  lemma FollowedOrCut(fs: Fs, a: Trail, b: Trail, d: nat, i: nat)
    requires Geometry(fs) && OnTop(a, d) && i < |Listing(fs, d).entries|
    requires Listing(fs, d).entries[i].inode in b.items || CutBelow(a, b)
    ensures Followed(fs, b, d, i)
  {
    hide Listing, Descends;
  }

  /** The parts of a trail that the fields of the search mirror, other than items and stack. */
  predicate Agrees(t: Trail, u: Trail) {
    u.matches == t.matches && u.origins == t.origins && u.hungry == t.hungry
  }

  /** The trail after the guard has fired below the directory on top. */
  function Cut(t: Trail): Trail
    requires t.stack != []
  {
    t.(cut := t.cut + {t.stack[|t.stack| - 1]})
  }

  /** When the guard fires, the stack is a path through 1025 different visited directories. */
  lemma CutKeeps(fs: Fs, start: nat, mode: Mode, t: Trail, bad: bool)
    requires Geometry(fs) && Inv(fs, start, mode, t, bad) && |t.stack| > DEPTH_LIMIT
    ensures DeepPath(fs, start, t.stack[|t.stack| - 1], t.items, t.stack)
    ensures Inv(fs, start, mode, Cut(t), true) && Extends(t, Cut(t), Nowhere) && CutBelow(t, Cut(t))
    ensures Agrees(t, Cut(t)) && Cut(t).items == t.items && Cut(t).stack == t.stack
  {
    hide Reachable, Near, Listing, Closed, Exact, Judged, IsPath;
    var d := t.stack[|t.stack| - 1];
    assert DeepPath(fs, start, d, t.items, t.stack);
    assert d in Cut(t).cut;
    GrowsKeeps(fs, start, mode, t, Cut(t), bad, true);
  }

  lemma {:induction false} SubsetSize(a: set<nat>, b: set<nat>)
    requires a <= b
    ensures |a| <= |b|
    decreases a
  {
    if a != {} {
      var x :| x in a;
      SubsetSize(a - {x}, b - {x});
    }
  }

  lemma {:induction false} SetOfSeqSize(s: seq<nat>)
    ensures |ElementsOf(s)| <= |s|
    ensures DuplicateFree(s) ==> |ElementsOf(s)| == |s|
  {
    if s != [] {
      var n := |s| - 1;
      SetOfSeqSize(s[..n]);
      assert s == s[..n] + [s[n]];
      assert ElementsOf(s) == ElementsOf(s[..n]) + {s[n]};
      if DuplicateFree(s) {
        assert DuplicateFree(s[..n]) && s[n] !in s[..n];
      }
    }
  }

  lemma StarveKeeps(fs: Fs, start: nat, mode: Mode, t: Trail, bad: bool)
    requires Geometry(fs) && Inv(fs, start, mode, t, bad)
    ensures Inv(fs, start, mode, t.(hungry := true), true) && Extends(t, t.(hungry := true), Nowhere)
  {
    hide Reachable, Near, Listing, Closed, Exact, Judged, Descent, DeepAt;
    GrowsKeeps(fs, start, mode, t, t.(hungry := true), bad, true);
  }

  lemma ReportKeeps(fs: Fs, start: nat, mode: Mode, t: Trail, bad: bool, d: nat, i: nat)
    requires Geometry(fs) && Inv(fs, start, mode, t, bad) && d in t.items && i < |Listing(fs, d).entries|
    requires Reports(mode, Listing(fs, d).entries[i]) && (d, i) !in t.origins
    ensures Inv(fs, start, mode, Reported(t, Listing(fs, d).entries[i], d, i), bad)
  {
    hide Reachable, Near, Listing, Reports, Descends, Descent, DeepAt;
    var u := Reported(t, Listing(fs, d).entries[i], d, i);
    DuplicateFreeAppend(t.origins, (d, i));
    assert forall k | 0 <= k < |t.matches| :: IsOrigin(fs, mode, t, t.matches[k], t.origins[k]);
    forall x: nat, j: nat | Listed(u, x) && j < |Listing(fs, x).entries|
      ensures Covered(fs, mode, u, x, j) && (!u.hungry ==> Followed(fs, u, x, j))
    {
      assert Covered(fs, mode, t, x, j);
      assert !t.hungry ==> Followed(fs, t, x, j);
    }
  }

  /** A corrupt entry of an active directory justifies noting a failure. */
  lemma CorruptKeeps(fs: Fs, start: nat, mode: Mode, t: Trail, bad: bool, d: nat, e: DirEntry)
    requires Geometry(fs) && Inv(fs, start, mode, t, bad) && d in t.items
    requires e in Listing(fs, d).entries && Corrupt(e)
    ensures Inv(fs, start, mode, t, true)
  {
    ListedEntry(fs, d, e);
  }

  /** Closing the frame on top, once its entries have all been reported and followed. */
  lemma FinishKeeps(fs: Fs, start: nat, mode: Mode, t: Trail, bad: bool, n: nat)
    requires Geometry(fs) && Inv(fs, start, mode, t, bad) && OnTop(t, n)
    requires forall i: nat | i < |Listing(fs, n).entries| :: Covered(fs, mode, t, n, i)
    requires !t.hungry ==> forall i: nat | i < |Listing(fs, n).entries| :: Followed(fs, t, n, i)
    ensures Inv(fs, start, mode, Leave(t), bad || !Listing(fs, n).ok)
  {
    hide Reachable, Near, Listing, Reports, Descends, Descent, DeepAt;
    var u := Leave(t);
    DescentPrefix(fs, start, t.stack);
    LeftListed(t, n);
    assert forall k | 0 <= k < |t.matches| :: IsOrigin(fs, mode, t, t.matches[k], t.origins[k]);
    forall x: nat, j: nat | Listed(u, x) && j < |Listing(fs, x).entries|
      ensures Covered(fs, mode, u, x, j) && (!u.hungry ==> Followed(fs, u, x, j))
    {
      assert Covered(fs, mode, t, x, j);
      assert !t.hungry ==> Followed(fs, t, x, j);
    }
  }

  lemma DescentPrefix(fs: Fs, start: nat, stack: seq<nat>)
    requires Geometry(fs) && stack != [] && Descent(fs, start, stack)
    ensures Descent(fs, start, stack[..|stack| - 1])
  {
    hide Edge;
    var p := stack[..|stack| - 1];
    assert forall i | 0 <= i < |p| - 1 :: Edge(fs, stack[i], stack[i + 1]);
  }

  lemma LeftListed(t: Trail, n: nat)
    requires OnTop(t, n)
    ensures forall d :: Listed(Leave(t), d) ==> Listed(t, d) || d == n
    ensures DuplicateFree(t.stack) ==> DuplicateFree(Leave(t).stack)
    ensures forall x | x in Leave(t).stack :: x in t.stack
  {
    var k := |t.stack| - 1;
    assert t.stack == t.stack[..k] + [n];
  }

  /** The directory behind an entry that the callback descends into is reachable. */
  lemma ChildReachable(fs: Fs, start: nat, mode: Mode, t: Trail, bad: bool, d: nat, i: nat)
    requires Geometry(fs) && Inv(fs, start, mode, t, bad) && d in t.items && i < |Listing(fs, d).entries|
    requires Descends(Listing(fs, d).entries[i])
    ensures Reachable(fs, start, Listing(fs, d).entries[i].inode)
    ensures InUniverse(fs, start, Listing(fs, d).entries[i].inode)
    ensures OnTop(t, d) ==> Next(fs, start, t, Listing(fs, d).entries[i].inode)
  {
    hide Listing, Reachable, Near, Closed, Exact, Judged, Descent, DeepAt;
    var e := Listing(fs, d).entries[i];
    ListedEntry(fs, d, e);
    assert Edge(fs, d, e.inode);
    ReachesNext(fs, start, d, e.inode);
  }

  // What a finished search amounts to.

  /** No frame is left: the visited directories are closed under descent, except below the cuts. */
  lemma FinishedSearch(fs: Fs, start: nat, mode: Mode, t: Trail, bad: bool)
    requires Geometry(fs) && Inv(fs, start, mode, t, bad) && t.stack == []
    ensures forall x | x in t.items :: Reachable(fs, start, x) && Near(fs, start, x)
    ensures !t.hungry ==> forall d: nat, i: nat | d in t.items && i < |Listing(fs, d).entries| :: Followed(fs, t, d, i)
    ensures forall d | d in t.cut :: d in t.items && DeepAt(fs, start, d, t.items)
    ensures bad <==> !Complete(t) || exists d :: d in t.items && !Listing(fs, d).ok
  {
    hide Listing, Reports, Descends, DeepAt, Reachable, Near, Followed;
    assert forall x | x in t.items :: Listed(t, x);
  }

  /** Every path to a directory that was not visited leads through one below which the guard fired. */
  lemma {:induction false} MissedBehindCut(fs: Fs, t: Trail, p: seq<nat>, from: nat, to: nat)
    requires Geometry(fs) && IsPath(fs, p, from, to) && from in t.items && to !in t.items
    requires forall d: nat, i: nat | d in t.items && i < |Listing(fs, d).entries| :: Followed(fs, t, d, i)
    ensures exists d :: d in p && d in t.cut
    decreases |p|
  {
    hide Listing, Descends;
    var n := |p| - 1;
    var q := p[..n];
    assert forall i | 0 <= i < |q| - 1 :: Edge(fs, p[i], p[i + 1]);
    assert IsPath(fs, q, from, p[n - 1]) && Edge(fs, p[n - 1], p[n - 1 + 1]);
    if p[n - 1] in t.items {
      var a := p[n - 1];
      var i: nat :|
        i < |Listing(fs, a).entries| && Descends(Listing(fs, a).entries[i]) && Listing(fs, a).entries[i].inode == to;
      assert Followed(fs, t, a, i);
      assert a in p && a in t.cut;
    } else {
      MissedBehindCut(fs, t, q, from, p[n - 1]);
    }
  }

  /** The reports are exactly the reportable positions of the visited directories, each made once. */
  lemma ReportsAreExact(fs: Fs, start: nat, mode: Mode, t: Trail, bad: bool, d: nat, i: nat)
    requires Geometry(fs) && Inv(fs, start, mode, t, bad) && t.stack == []
    ensures (d, i) in t.origins <==>
            d in t.items && i < |Listing(fs, d).entries| && Reports(mode, Listing(fs, d).entries[i])
  {
    hide Listing, Reports, Descends, Reachable;
    if (d, i) in t.origins {
      var k :| 0 <= k < |t.origins| && t.origins[k] == (d, i);
      assert IsOrigin(fs, mode, t, t.matches[k], t.origins[k]);
    }
    if d in t.items && i < |Listing(fs, d).entries| {
      assert Listed(t, d);
      assert Covered(fs, mode, t, d, i);
    }
  }
}
