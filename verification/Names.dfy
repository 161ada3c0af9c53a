/** What the name tests of the callbacks mean, written out on the bytes of the names. */
module Names {
  import opened Bytes
  import opened Super
  import opened Dir
  import opened Extent
  import opened Lookup
  import opened SearchSpec

  /** `s`, cut at its first zero byte, is `name`; `name` itself holds no zero. */
  predicate CutIs(s: seq<byte>, name: seq<byte>) {
    && 0 !in name && |name| <= |s| && s[..|name|] == name
    && (|s| == |name| || s[|name|] == 0)
  }

  lemma {:induction false} CStringIs(s: seq<byte>, name: seq<byte>)
    requires 0 !in name
    ensures CString(s) == name <==> CutIs(s, name)
    decreases |s|
  {
    if s != [] && s[0] != 0 && name != [] {
      CStringIs(s[1..], name[1..]);
      assert name == [name[0]] + name[1..];
      assert CString(s) == [s[0]] + CString(s[1..]);
      if CutIs(s, name) {
        assert s[1..][..|name| - 1] == s[..|name|][1..];
      }
      if CutIs(s[1..], name[1..]) && s[0] == name[0] {
        assert s[..|name|] == [s[0]] + s[1..][..|name| - 1];
      }
    }
  }

  /** An entry matches a name exactly if it is intact and its name, cut at the first zero, is that name. */
  lemma MatchesMeans(name: seq<byte>, e: DirEntry)
    requires 0 !in name
    ensures Matches(name, e) <==> e.fault == None && CutIs(e.name, name)
  {
    hide CString, CutIs;
    CStringIs(e.name, name);
  }

  /** The search follows exactly the intact entries of type directory (2) that are neither "." nor "..". */
  lemma DescendsMeans(e: DirEntry)
    ensures Descends(e) <==>
            && e.fault == None && e.fileType == 2
            && !CutIs(e.name, [0x2E]) && !CutIs(e.name, [0x2E, 0x2E])
  {
    hide CString, CutIs;
    CStringIs(e.name, [0x2E]);
    CStringIs(e.name, [0x2E, 0x2E]);
  }

  /** What each of the three modes reports. */
  lemma ReportsMeans(mode: Mode, e: DirEntry)
    ensures match mode
            case ByName(name) => 0 !in name ==> (Reports(mode, e) <==> e.fault == None && CutIs(e.name, name))
            case ByInode(inode) => Reports(mode, e) <==> e.fault == None && e.inode == inode
            case Corrupted => Reports(mode, e) <==> e.fault != None
  {
    hide CutIs, CString;
    if mode.ByName? && 0 !in mode.name {
      MatchesMeans(mode.name, e);
    }
  }

  /** An entry of this type and name is followed: a directory (2) that is neither "." nor "..". */
  predicate LeadsDown(fileType: nat, name: seq<byte>) {
    fileType == 2 && !CutIs(name, [0x2E]) && !CutIs(name, [0x2E, 0x2E])
  }

  /** The edges of the directory graph, by types and names. */
  lemma EdgeMeans(fs: Fs, a: nat, b: nat)
    requires Geometry(fs)
    ensures Edge(fs, a, b) <==>
            exists e :: e in Listing(fs, a).entries && e.fault == None && e.inode == b && LeadsDown(e.fileType, e.name)
  {
    hide Listing, Descends, CutIs, Geometry;
    var es := Listing(fs, a).entries;
    if i :| 0 <= i < |es| && Descends(es[i]) && es[i].inode == b {
      DescendsMeans(es[i]);
      assert es[i] in es;
    }
    if e :| e in es && e.fault == None && e.inode == b && LeadsDown(e.fileType, e.name) {
      DescendsMeans(e);
      var i :| 0 <= i < |es| && es[i] == e;
    }
  }

  // Lookup, by names.

  /**
   * Lookup agrees with listing: a name is found exactly when the full listing has an intact entry
   * whose name, cut at the first zero, is that name; what is found is such an entry, and it is the only
   * one if names are unique.
   */
  lemma LookupByName(fs: Fs, dir: nat, name: seq<byte>)
    requires Geometry(fs) && 0 !in name && |name| <= 255
    ensures var listing := ListDirectory(fs, dir, Every).entries;
            && (FindEntry(fs, dir, name).Some? <==>
                exists e :: e in listing && e.fault == None && CutIs(e.name, name))
            && (FindEntry(fs, dir, name).Some? ==>
                  var e := FindEntry(fs, dir, name).value;
                  e in listing && e.fault == None && CutIs(e.name, name))
            && (forall e | e in listing && e.fault == None && CutIs(e.name, name) ::
                  (forall f | f in listing && f.fault == None && CutIs(f.name, name) :: f == e) ==>
                  FindEntry(fs, dir, name) == Some(e))
  {
    LookupAgreesWithListing(fs, dir, name);
    hide ListDirectory, FindEntry, CutIs, Matches, Geometry;
    forall e
      ensures Matches(name, e) <==> e.fault == None && CutIs(e.name, name)
    {
      MatchesMeans(name, e);
    }
  }

  /** Names longer than 255 bytes are refused. */
  lemma LongNames(fs: Fs, dir: nat, name: seq<byte>)
    requires Geometry(fs) && |name| > 255
    ensures FindEntry(fs, dir, name) == None
  {
  }
}
