/** ext4_path.c: resolving a path to an inode. */
module Path {
  import opened Bytes
  import opened Super
  import opened Dir
  import opened Extent
  import opened Lookup

  const SLASH: byte := 0x2F
  const DOT: byte := 0x2E
  const ROOT_INO: nat := 2

  // Resolution as a fold of lookup over the components of the path.

  /** The length of the component that `s` starts with. */
  function SegmentLength(s: seq<byte>): (n: nat)
    ensures n <= |s|
    ensures forall i | 0 <= i < n :: s[i] != SLASH
    ensures n < |s| ==> s[n] == SLASH
  {
    if s == [] || s[0] == SLASH then 0 else 1 + SegmentLength(s[1..])
  }

  /** The components between slashes, without empty ones and without ".". */
  function Components(s: seq<byte>): seq<seq<byte>>
    decreases |s|
  {
    if s == [] then []
    else if s[0] == SLASH then Components(s[1..])
    else
      var n := SegmentLength(s);
      (if s[..n] == [DOT] then [] else [s[..n]]) + Components(s[n..])
  }

  function Step(fs: Fs, at: Option<nat>, name: seq<byte>): Option<nat>
    requires Geometry(fs)
  {
    match at
    case None => None
    case Some(dir) =>
      match FindEntry(fs, dir, name)
      case None => None
      case Some(e) => Some(e.inode)
  }

  /** Looking the names up one after the other, each in the directory found before it. */
  function Follow(fs: Fs, at: Option<nat>, names: seq<seq<byte>>): Option<nat>
    requires Geometry(fs)
  {
    if names == [] then at else Step(fs, Follow(fs, at, names[..|names| - 1]), names[|names| - 1])
  }

  predicate Absolute(path: seq<byte>) {
    path != [] && path[0] == SLASH
  }

  function Origin(start: nat, path: seq<byte>): nat {
    if Absolute(path) then ROOT_INO else start
  }

  /** What `ext4_resolve_path` should return. */
  function Resolve(fs: Fs, start: nat, path: seq<byte>): Option<nat>
    requires Geometry(fs)
  {
    Follow(fs, Some(Origin(start, path)), Components(path))
  }

  /** No directory that the names lead through makes lookup read past the end of an extent node. */
  ghost predicate ContainedAlong(fs: Fs, at: Option<nat>, names: seq<seq<byte>>)
    requires Geometry(fs)
  {
    forall k | 0 <= k < |names| && |names[k]| <= NAME_MAX ::
      Follow(fs, at, names[..k]).Some? ==> Contained(fs, Follow(fs, at, names[..k]).value)
  }

  lemma ContainedNext(fs: Fs, at: Option<nat>, done: seq<seq<byte>>, name: seq<byte>, rest: seq<seq<byte>>)
    requires Geometry(fs) && ContainedAlong(fs, at, done + ([name] + rest)) && |name| <= NAME_MAX
    ensures Follow(fs, at, done).Some? ==> Contained(fs, Follow(fs, at, done).value)
  {
    hide Contained, Follow;
    var names := done + ([name] + rest);
    assert names[|done|] == name && names[..|done|] == done;
  }

  lemma {:induction false} FollowAppend(fs: Fs, at: Option<nat>, a: seq<seq<byte>>, b: seq<seq<byte>>)
    requires Geometry(fs)
    ensures Follow(fs, at, a + b) == Follow(fs, Follow(fs, at, a), b)
    decreases b
  {
    hide Step;
    if b == [] {
      assert a + b == a;
    } else {
      assert (a + b)[..|a + b| - 1] == a + b[..|b| - 1];
      FollowAppend(fs, at, a, b[..|b| - 1]);
    }
  }

  lemma {:induction false} FollowNowhere(fs: Fs, names: seq<seq<byte>>)
    requires Geometry(fs)
    ensures Follow(fs, None, names) == None
  {
    if names != [] {
      FollowNowhere(fs, names[..|names| - 1]);
    }
  }

  // The loop of the source.

  /** `copy_component`: skips slashes and takes the next component, unless it is longer than a name may be. */
  method CopyComponent(path: seq<byte>, cursor: nat) returns (ok: bool, component: seq<byte>, next: nat)
    requires cursor <= |path|
    ensures cursor <= next <= |path|
    ensures cursor < |path| && ok ==> next > cursor
    ensures ok ==> |component| <= 255
    ensures ok ==> Components(path[cursor..]) ==
                   (if component == [] || component == [DOT] then [] else [component]) + Components(path[next..])
    ensures !ok ==> Components(path[cursor..]) != [] && |Components(path[cursor..])[0]| > 255
  {
    hide Components, SegmentLength;
    next := cursor;
    while next < |path| && path[next] == SLASH
      invariant cursor <= next <= |path|
      invariant Components(path[cursor..]) == Components(path[next..])
    {
      SkipSlash(path, next);
      next := next + 1;
    }
    TakeSegment(path, next);
    ghost var n := SegmentLength(path[next..]);
    var length := 0;
    component := [];
    while next + length < |path| && path[next + length] != SLASH
      invariant length <= n && length <= NAME_MAX
      invariant component == path[next..next + length]
    {
      if length == NAME_MAX {
        return false, component, next;
      }
      component := component + [path[next + length]];
      length := length + 1;
    }
    next := next + length;
    ok := true;
  }

  lemma SkipSlash(path: seq<byte>, i: nat)
    requires i < |path| && path[i] == SLASH
    ensures Components(path[i..]) == Components(path[i + 1..])
  {
    assert path[i..][1..] == path[i + 1..];
  }

  lemma TakeSegment(path: seq<byte>, i: nat)
    requires i <= |path| && (i < |path| ==> path[i] != SLASH)
    ensures var n := SegmentLength(path[i..]);
            && (forall j | i <= j < i + n :: path[j] != SLASH) && (i + n < |path| ==> path[i + n] == SLASH)
            && Components(path[i..]) ==
               (if n == 0 || path[i..i + n] == [DOT] then [] else [path[i..i + n]]) + Components(path[i + n..])
  {
    FirstComponent(path[i..]);
    hide Components, SegmentLength;
    var rest := path[i..];
    var n := SegmentLength(rest);
    assert rest[..n] == path[i..i + n] && rest[n..] == path[i + n..];
    assert forall j | i <= j < i + n :: path[j] == rest[j - i];
  }

  lemma FirstComponent(s: seq<byte>)
    requires s != [] ==> s[0] != SLASH
    ensures var n := SegmentLength(s);
            Components(s) == (if n == 0 || s[..n] == [DOT] then [] else [s[..n]]) + Components(s[n..])
  {
  }

  /** `ext4_resolve_path`. */
  method ResolvePath(fs: Fs, start: nat, path: seq<byte>) returns (r: Option<nat>)
    requires Geometry(fs) && ContainedAlong(fs, Some(Origin(start, path)), Components(path))
    ensures r == Resolve(fs, start, path)
  {
    hide FindEntry, Components, Contained, ContainedAlong;
    var current := if path != [] && path[0] == SLASH then ROOT_INO else start;
    if path == [] || path == [SLASH] {
      TrivialComponents();
      return Some(current);
    }
    var cursor := 0;
    ghost var done: seq<seq<byte>> := [];
    assert path[0..] == path;
    while cursor < |path|
      invariant cursor <= |path|
      invariant Components(path) == done + Components(path[cursor..])
      invariant Some(current) == Follow(fs, Some(Origin(start, path)), done)
    {
      ghost var rest := Components(path[cursor..]);
      var ok, component, next := CopyComponent(path, cursor);
      if !ok {
        TooLong(fs, current, rest[0]);
        assert rest == [rest[0]] + rest[1..];
        FollowFails(fs, Some(Origin(start, path)), done, rest[0], rest[1..]);
        return None;
      }
      cursor := next;
      if component == [] || component == [DOT] {
        continue;
      }
      ContainedNext(fs, Some(Origin(start, path)), done, component, Components(path[next..]));
      var entry := FindEntryInDirectory(fs, current, component);
      if entry == None {
        FollowFails(fs, Some(Origin(start, path)), done, component, Components(path[next..]));
        return None;
      }
      assert (done + [component])[..|done|] == done;
      assert done + ([component] + Components(path[next..])) == done + [component] + Components(path[next..]);
      done := done + [component];
      current := entry.value.inode;
    }
    TrivialComponents();
    assert path[cursor..] == [];
    assert Components(path) == done;
    return Some(current);
  }

  lemma TrivialComponents()
    ensures Components([]) == [] && Components([SLASH]) == []
  {
    assert [SLASH][1..] == [];
  }

  lemma TooLong(fs: Fs, dir: nat, name: seq<byte>)
    requires Geometry(fs) && |name| > NAME_MAX
    ensures FindEntry(fs, dir, name) == None
  {
  }

  lemma FollowFirst(fs: Fs, at: Option<nat>, name: seq<byte>)
    requires Geometry(fs)
    ensures Follow(fs, at, [name]) == Step(fs, at, name)
  {
    hide Step;
    assert [name][..0] == [];
  }

  /** A component that cannot be looked up makes the whole resolution fail. */
  lemma FollowFails(fs: Fs, at: Option<nat>, done: seq<seq<byte>>, name: seq<byte>, rest: seq<seq<byte>>)
    requires Geometry(fs) && Step(fs, Follow(fs, at, done), name) == None
    ensures Follow(fs, at, done + ([name] + rest)) == None
  {
    FollowFirst(fs, Follow(fs, at, done), name);
    hide Follow, Step;
    FollowAppend(fs, at, done, [name] + rest);
    FollowAppend(fs, Follow(fs, at, done), [name], rest);
    FollowNowhere(fs, rest);
  }

  // Joining paths.

  lemma {:induction false} SegmentJoin(p: seq<byte>, q: seq<byte>)
    ensures SegmentLength(p + [SLASH] + q) == SegmentLength(p)
  {
    var s := p + [SLASH] + q;
    if p != [] && p[0] != SLASH {
      SegmentJoin(p[1..], q);
      assert s[1..] == p[1..] + [SLASH] + q;
    }
  }

  lemma {:induction false} ComponentsJoin(p: seq<byte>, q: seq<byte>)
    ensures Components(p + [SLASH] + q) == Components(p) + Components(q)
    decreases |p|
  {
    hide Components, SegmentLength;
    var s := p + [SLASH] + q;
    if p == [] {
      assert s == [SLASH] + q && s[0..] == s && s[1..] == q;
      SkipSlash(s, 0);
      TrivialComponents();
    } else if p[0] == SLASH {
      assert s[1..] == p[1..] + [SLASH] + q && s[0..] == s && p[0..] == p;
      ComponentsJoin(p[1..], q);
      SkipSlash(s, 0);
      SkipSlash(p, 0);
    } else {
      var n := SegmentLength(p);
      SegmentJoin(p, q);
      FirstComponent(p);
      FirstComponent(s);
      FirstSegment(p);
      assert s[..n] == p[..n] && s[n..] == p[n..] + [SLASH] + q;
      ComponentsJoin(p[n..], q);
    }
  }

  lemma FirstSegment(s: seq<byte>)
    requires s != [] && s[0] != SLASH
    ensures SegmentLength(s) > 0
  {
  }

  /**
   * Resolving p/q is resolving q from where p leads, failures included, for every nonempty p and
   * every relative q.
   */
  lemma ResolveJoin(fs: Fs, start: nat, p: seq<byte>, q: seq<byte>)
    requires Geometry(fs) && p != [] && !Absolute(q)
    ensures Resolve(fs, start, p + [SLASH] + q) ==
            match Resolve(fs, start, p)
            case None => None
            case Some(dir) => Resolve(fs, dir, q)
  {
    hide Components, Follow;
    ComponentsJoin(p, q);
    FollowAppend(fs, Some(Origin(start, p)), Components(p), Components(q));
    FollowNowhere(fs, Components(q));
  }

  /** With nothing before the slash the path is absolute: q is resolved from the root. */
  lemma ResolveFromRoot(fs: Fs, start: nat, q: seq<byte>)
    requires Geometry(fs) && !Absolute(q)
    ensures Resolve(fs, start, [SLASH] + q) == Resolve(fs, ROOT_INO, q)
  {
    assert [] + [SLASH] + q == [SLASH] + q;
    ComponentsJoin([], q);
  }

  // Paths of one component, and of several.

  /** `name` can be a component: it is not empty, has no slash (0x2F) and is not "." (0x2E). */
  predicate Plain(name: seq<byte>) {
    name != [] && 0x2F !in name && name != [0x2E]
  }

  lemma {:induction false} WholeSegment(name: seq<byte>)
    requires 0x2F !in name
    ensures SegmentLength(name) == |name|
  {
    if name != [] {
      WholeSegment(name[1..]);
    }
  }

  lemma OneComponent(name: seq<byte>)
    requires Plain(name)
    ensures Components(name) == [name]
  {
    WholeSegment(name);
    FirstComponent(name);
    hide Components, SegmentLength;
    TrivialComponents();
    assert name[..|name|] == name && name[|name|..] == [];
    assert [name] + [] == [name];
  }

  /** The names with slashes between them. */
  function Joined(names: seq<seq<byte>>): seq<byte> {
    if names == [] then []
    else if |names| == 1 then names[0]
    else names[0] + [0x2F] + Joined(names[1..])
  }

  /** Splitting a path undoes joining its names. */
  lemma {:induction false} ComponentsOfJoined(names: seq<seq<byte>>)
    requires forall i | 0 <= i < |names| :: Plain(names[i])
    ensures Components(Joined(names)) == names
  {
    hide Components, Plain;
    if names == [] {
      TrivialComponents();
    } else {
      OneComponent(names[0]);
      if |names| > 1 {
        ComponentsOfJoined(names[1..]);
        ComponentsJoin(names[0], Joined(names[1..]));
        assert names == [names[0]] + names[1..];
      }
    }
  }

  /** The empty path leads to where it starts, and "/" and "." lead to inode 2 and to the start. */
  lemma ResolveTrivial(fs: Fs, start: nat)
    requires Geometry(fs)
    ensures Resolve(fs, start, []) == Some(start) && Resolve(fs, start, [0x2F]) == Some(2)
    ensures Resolve(fs, start, [0x2E]) == Some(start)
  {
    TrivialComponents();
    assert Components([DOT]) == [];
  }

  /** A path of one name leads to the inode of the entry that lookup finds in the start, if any. */
  lemma ResolveName(fs: Fs, start: nat, name: seq<byte>)
    requires Geometry(fs) && Plain(name)
    ensures Resolve(fs, start, name) ==
            match FindEntry(fs, start, name) case None => None case Some(e) => Some(e.inode)
    ensures Resolve(fs, start, [0x2F] + name) ==
            match FindEntry(fs, 2, name) case None => None case Some(e) => Some(e.inode)
  {
    hide Components, FindEntry;
    OneComponent(name);
    FollowOne(fs, start, name);
    FollowOne(fs, 2, name);
    assert ([0x2F] + name)[0..] == [0x2F] + name && ([0x2F] + name)[1..] == name;
    SkipSlash([0x2F] + name, 0);
    assert name[0] != 0x2F;
  }

  lemma FollowOne(fs: Fs, start: nat, name: seq<byte>)
    requires Geometry(fs)
    ensures Follow(fs, Some(start), [name]) ==
            match FindEntry(fs, start, name) case None => None case Some(e) => Some(e.inode)
  {
    hide FindEntry;
    FollowFirst(fs, Some(start), name);
  }
}
