/** What makes the tour of `SearchOrder` a depth-first one: directories and entries come before what lies below them. */
module TourLaws {
  import opened Super
  import opened Dir
  import opened SearchSpec
  import opened SearchTrail
  import opened SearchOrder

  // Nothing visited is forgotten, and new visits come last.

  lemma {:induction false} VisitAppends(fs: Fs, start: nat, mode: Mode, depth: nat, n: nat, seen: seq<nat>)
    requires Geometry(fs) && InUniverse(fs, start, n)
    ensures seen <= Visit(fs, start, mode, depth, n, seen).items
    decreases Left(fs, start, seen), 0, 0
  {
    hide Listing, Left, InUniverse, ElementsOf, Sweep, Named;
    if depth <= 1024 && n !in seen {
      ListingNamed(fs, n);
      OneMoreSeen(fs, start, seen, n);
      SweepAppends(fs, start, mode, depth + 1, Listing(fs, n).entries, seen + [n]);
    }
  }

  lemma {:induction false} SweepAppends(fs: Fs, start: nat, mode: Mode, depth: nat, entries: seq<DirEntry>,
                                        seen: seq<nat>)
    requires Geometry(fs) && Named(fs, entries)
    ensures seen <= Sweep(fs, start, mode, depth, entries, seen).items
    decreases Left(fs, start, seen), 1, |entries|
  {
    hide Left, Below, Descends;
    if entries != [] {
      var below := Below(fs, start, mode, depth, entries[0], seen);
      BelowAppends(fs, start, mode, depth, entries[0], seen);
      SmallerLeft(fs, start, seen, below.items);
      SweepAppends(fs, start, mode, depth, entries[1..], below.items);
    }
  }

  lemma {:induction false} BelowAppends(fs: Fs, start: nat, mode: Mode, depth: nat, e: DirEntry, seen: seq<nat>)
    requires Geometry(fs) && (Descends(e) ==> e.inode <= fs.sb.inodesCount)
    ensures seen <= Below(fs, start, mode, depth, e, seen).items
    decreases Left(fs, start, seen), 0, 1
  {
    hide Left, Descends, Visit, Reports;
    if Descends(e) {
      VisitAppends(fs, start, mode, depth, e.inode, seen);
    }
  }

  /** A directory is visited before everything below it, and only if it is new and the guard does not fire. */
  lemma DirectoryFirst(fs: Fs, start: nat, mode: Mode, depth: nat, n: nat, seen: seq<nat>)
    requires Geometry(fs) && InUniverse(fs, start, n)
    ensures n !in seen && depth <= 1024 ==> seen + [n] <= Visit(fs, start, mode, depth, n, seen).items
    ensures n in seen || depth > 1024 ==> Visit(fs, start, mode, depth, n, seen) == Tour(seen, [])
  {
    hide Listing, Left, InUniverse, ElementsOf, Sweep, Named;
    if depth <= 1024 && n !in seen {
      ListingNamed(fs, n);
      SweepAppends(fs, start, mode, depth + 1, Listing(fs, n).entries, seen + [n]);
    }
  }

  /** An entry is reported before everything that is reported below it. */
  lemma EntryFirst(fs: Fs, start: nat, mode: Mode, depth: nat, e: DirEntry, seen: seq<nat>)
    requires Geometry(fs) && (Descends(e) ==> e.inode <= fs.sb.inodesCount)
    ensures Reports(mode, e) ==> [e] <= Below(fs, start, mode, depth, e, seen).matches
  {
    hide Descends, Visit, Reports;
  }

  lemma NamedParts(fs: Fs, a: seq<DirEntry>, b: seq<DirEntry>)
    requires Named(fs, a + b)
    ensures Named(fs, a) && Named(fs, b)
  {
    hide Descends;
    assert forall i | 0 <= i < |a| :: (a + b)[i] == a[i];
    assert forall i | 0 <= i < |b| :: (a + b)[|a| + i] == b[i];
  }

  /**
   * The entries of a directory are gone through from first to last: everything visited and reported at
   * and below an entry comes before what is visited and reported at and below a later one.
   */
  lemma {:induction false} EarlierEntriesFirst(fs: Fs, start: nat, mode: Mode, depth: nat, a: seq<DirEntry>,
                                               b: seq<DirEntry>, seen: seq<nat>)
    requires Geometry(fs) && Named(fs, a + b)
    ensures Named(fs, a) && Named(fs, b)
    ensures var first := Sweep(fs, start, mode, depth, a, seen);
            var second := Sweep(fs, start, mode, depth, b, first.items);
            Sweep(fs, start, mode, depth, a + b, seen) == Tour(second.items, first.matches + second.matches)
    decreases a
  {
    NamedParts(fs, a, b);
    hide Below, Named, Descends, Left, Sweep, Geometry, Reports;
    if a == [] {
      assert a + b == b;
      SweepNothing(fs, start, mode, depth, seen);
    } else {
      assert (a + b)[0] == a[0] && (a + b)[1..] == a[1..] + b;
      SweepStep(fs, start, mode, depth, a + b, seen);
      SweepStep(fs, start, mode, depth, a, seen);
      var below := Below(fs, start, mode, depth, a[0], seen);
      var rest := Sweep(fs, start, mode, depth, a[1..], below.items);
      EarlierEntriesFirst(fs, start, mode, depth, a[1..], b, below.items);
      Associative(below.matches, rest.matches, Sweep(fs, start, mode, depth, b, rest.items).matches);
    }
  }

  lemma Associative(x: seq<DirEntry>, y: seq<DirEntry>, z: seq<DirEntry>)
    ensures x + (y + z) == (x + y) + z
  {
  }

  lemma SweepStep(fs: Fs, start: nat, mode: Mode, depth: nat, entries: seq<DirEntry>, seen: seq<nat>)
    requires Geometry(fs) && Named(fs, entries) && entries != []
    ensures Named(fs, entries[1..]) && (Descends(entries[0]) ==> entries[0].inode <= fs.sb.inodesCount)
    ensures var below := Below(fs, start, mode, depth, entries[0], seen);
            var rest := Sweep(fs, start, mode, depth, entries[1..], below.items);
            Sweep(fs, start, mode, depth, entries, seen) == Tour(rest.items, below.matches + rest.matches)
  {
    hide Below, Descends, Left, Geometry;
  }

  lemma SweepNothing(fs: Fs, start: nat, mode: Mode, depth: nat, seen: seq<nat>)
    requires Geometry(fs) && Named(fs, [])
    ensures Sweep(fs, start, mode, depth, [], seen) == Tour(seen, [])
  {
  }
}
