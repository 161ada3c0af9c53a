/** The order in which a search visits and reports: depth-first, an entry before what lies below it. */
module SearchOrder {
  import opened Super
  import opened Dir
  import opened SearchSpec
  import opened SearchTrail

  /** All inodes visited so far, and the entries reported on the way. */
  datatype Tour = Tour(items: seq<nat>, matches: seq<DirEntry>)

  ghost predicate Named(fs: Fs, entries: seq<DirEntry>) {
    forall i | 0 <= i < |entries| :: Descends(entries[i]) ==> entries[i].inode <= fs.sb.inodesCount
  }

  lemma ListingNamed(fs: Fs, d: nat)
    requires Geometry(fs)
    ensures Named(fs, Listing(fs, d).entries)
  {
    hide Listing;
    var entries := Listing(fs, d).entries;
    forall i | 0 <= i < |entries| && Descends(entries[i])
      ensures entries[i].inode <= fs.sb.inodesCount
    {
      ListedEntry(fs, d, entries[i]);
    }
  }

  function Left(fs: Fs, start: nat, seen: seq<nat>): set<nat> {
    Universe(fs, start) - ElementsOf(seen)
  }

  /** Visiting `n` from a frame at `depth`, when `seen` have been visited before. */
  ghost function Visit(fs: Fs, start: nat, mode: Mode, depth: nat, n: nat, seen: seq<nat>): (r: Tour)
    requires Geometry(fs) && InUniverse(fs, start, n)
    ensures ElementsOf(seen) <= ElementsOf(r.items)
    decreases Left(fs, start, seen), 0, 0
  {
    if depth > DEPTH_LIMIT || n in seen then Tour(seen, [])
    else
      ListingNamed(fs, n);
      OneMoreSeen(fs, start, seen, n);
      Sweep(fs, start, mode, depth + 1, Listing(fs, n).entries, seen + [n])
  }

  /** Going through the entries of a directory: each is reported first and then followed. */
  ghost function Sweep(fs: Fs, start: nat, mode: Mode, depth: nat, entries: seq<DirEntry>, seen: seq<nat>): (r: Tour)
    requires Geometry(fs) && Named(fs, entries)
    ensures ElementsOf(seen) <= ElementsOf(r.items)
    decreases Left(fs, start, seen), 1, |entries|
  {
    if entries == [] then Tour(seen, [])
    else
      var below := Below(fs, start, mode, depth, entries[0], seen);
      SmallerLeft(fs, start, seen, below.items);
      var rest := Sweep(fs, start, mode, depth, entries[1..], below.items);
      Tour(rest.items, below.matches + rest.matches)
  }

  /** One entry: its report, and what is visited and reported below it. */
  ghost function Below(fs: Fs, start: nat, mode: Mode, depth: nat, e: DirEntry, seen: seq<nat>): (r: Tour)
    requires Geometry(fs) && (Descends(e) ==> e.inode <= fs.sb.inodesCount)
    ensures ElementsOf(seen) <= ElementsOf(r.items)
    decreases Left(fs, start, seen), 0, 1
  {
    var own := if Reports(mode, e) then [e] else [];
    if !Descends(e) then Tour(seen, own)
    else
      var r := Visit(fs, start, mode, depth, e.inode, seen);
      Tour(r.items, own + r.matches)
  }

  lemma OneMoreSeen(fs: Fs, start: nat, seen: seq<nat>, n: nat)
    requires InUniverse(fs, start, n) && n !in seen
    ensures Left(fs, start, seen + [n]) < Left(fs, start, seen)
    ensures ElementsOf(seen) <= ElementsOf(seen + [n])
  {
    assert n in Left(fs, start, seen) && n !in Left(fs, start, seen + [n]);
  }

  lemma SmallerLeft(fs: Fs, start: nat, seen: seq<nat>, more: seq<nat>)
    requires ElementsOf(seen) <= ElementsOf(more)
    ensures Left(fs, start, more) <= Left(fs, start, seen)
    ensures Left(fs, start, more) < Left(fs, start, seen) || Left(fs, start, more) == Left(fs, start, seen)
  {
  }

  /** The reports that an entry itself gives rise to. */
  function Own(mode: Mode, e: DirEntry): seq<DirEntry> {
    if Reports(mode, e) then [e] else []
  }

  ghost function SweepListing(fs: Fs, start: nat, mode: Mode, depth: nat, n: nat, seen: seq<nat>): Tour
    requires Geometry(fs)
  {
    ListingNamed(fs, n);
    Sweep(fs, start, mode, depth, Listing(fs, n).entries, seen)
  }

  // How the trail of a search in progress follows the tour.

  /** From `a` to `b` the search has made the tour `r`. */
  predicate Toured(a: Trail, b: Trail, r: Tour) {
    b.items == r.items && b.matches == a.matches + r.matches
  }

  lemma VisitedBefore(fs: Fs, start: nat, mode: Mode, a: Trail, b: Trail, n: nat)
    requires Geometry(fs) && InUniverse(fs, start, n)
    requires b.items == a.items && b.matches == a.matches && (|a.stack| > DEPTH_LIMIT || n in a.items)
    ensures Toured(a, b, Visit(fs, start, mode, |a.stack|, n, a.items))
  {
  }

  lemma VisitedNow(fs: Fs, start: nat, mode: Mode, a: Trail, b: Trail, n: nat)
    requires Geometry(fs) && InUniverse(fs, start, n) && |a.stack| <= DEPTH_LIMIT && n !in a.items
    requires Toured(Enter(a, n), b, SweepListing(fs, start, mode, |a.stack| + 1, n, a.items + [n]))
    ensures Toured(a, b, Visit(fs, start, mode, |a.stack|, n, a.items))
  {
    hide Listing, Sweep;
    ListingNamed(fs, n);
  }

  lemma NotFollowed(fs: Fs, start: nat, mode: Mode, a: Trail, b: Trail, e: DirEntry)
    requires Geometry(fs) && !Descends(e) && Toured(a, b, Tour(a.items, Own(mode, e)))
    ensures Toured(a, b, Below(fs, start, mode, |a.stack|, e, a.items))
  {
    hide Descends, Reports;
  }

  lemma FollowedBelow(fs: Fs, start: nat, mode: Mode, a: Trail, b: Trail, c: Trail, e: DirEntry)
    requires Geometry(fs) && Descends(e) && e.inode <= fs.sb.inodesCount
    requires Toured(a, b, Tour(a.items, Own(mode, e))) && b.stack == a.stack
    requires Toured(b, c, Visit(fs, start, mode, |b.stack|, e.inode, b.items))
    ensures Toured(a, c, Below(fs, start, mode, |a.stack|, e, a.items))
  {
    hide Descends, Reports, Visit;
  }

  /** The trail `t` continued by the tour `r`. */
  function Continued(t: Trail, r: Tour): Tour {
    Tour(r.items, t.matches + r.matches)
  }

  lemma SweptOne(fs: Fs, start: nat, mode: Mode, depth: nat, entries: seq<DirEntry>, k: nat, a: Trail, b: Trail)
    requires Geometry(fs) && k < |entries| && Named(fs, entries[k..])
    requires Toured(a, b, Below(fs, start, mode, depth, entries[k], a.items))
    ensures Named(fs, entries[k + 1..])
    ensures Continued(a, Sweep(fs, start, mode, depth, entries[k..], a.items)) ==
            Continued(b, Sweep(fs, start, mode, depth, entries[k + 1..], b.items))
  {
    hide Below, Descends;
    assert entries[k..][0] == entries[k] && entries[k..][1..] == entries[k + 1..];
    NamedRest(fs, entries, k);
    var below, rest := Below(fs, start, mode, depth, entries[k], a.items),
                       Sweep(fs, start, mode, depth, entries[k + 1..], b.items);
    assert a.matches + (below.matches + rest.matches) == a.matches + below.matches + rest.matches;
  }

  lemma SweptAll(fs: Fs, start: nat, mode: Mode, depth: nat, entries: seq<DirEntry>, a: Trail, b: Trail)
    requires Geometry(fs) && Named(fs, entries)
    requires Continued(a, Sweep(fs, start, mode, depth, entries, a.items)) ==
             Continued(b, Sweep(fs, start, mode, depth, [], b.items))
    ensures Toured(a, b, Sweep(fs, start, mode, depth, entries, a.items))
  {
    var end := Sweep(fs, start, mode, depth, [], b.items);
    assert b.matches + end.matches == b.matches;
  }

  lemma NamedFirst(fs: Fs, entries: seq<DirEntry>, k: nat)
    requires k < |entries| && Named(fs, entries[k..])
    ensures Descends(entries[k]) ==> entries[k].inode <= fs.sb.inodesCount
  {
    hide Descends;
    assert entries[k..][0] == entries[k];
  }

  lemma NamedRest(fs: Fs, entries: seq<DirEntry>, k: nat)
    requires k < |entries| && Named(fs, entries[k..])
    ensures Named(fs, entries[k + 1..])
  {
    hide Descends;
    var rest := entries[k + 1..];
    forall i | 0 <= i < |rest| && Descends(rest[i])
      ensures rest[i].inode <= fs.sb.inodesCount
    {
      assert rest[i] == entries[k..][i + 1];
    }
  }
}
