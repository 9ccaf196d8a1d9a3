/**
 Staging the service program under a root-owned prefix: the prefix check, the creation of missing
 intermediate directories, the leaf directory and the copied binary, over a tree of directories,
 files and symbolic links on which any system call may fail. Paths are absolute and normalised;
 what lies behind a symbolic link is not part of the tree, and an operation that goes through one
 has an arbitrary outcome and no effect on the tree.
 */
module Staging {
  import opened Prelude

  type Path = seq<string>
  type Mode = bv32

  datatype Kind = Dir | File(content: seq<byte>) | Link
  datatype Entry = Entry(kind: Kind, uid: nat, mode: Mode)
  type Tree = map<Path, Entry>

  const MODE_0755: Mode := 0x1ED

  function Parent(p: Path): Path {
    if p == [] then [] else p[..|p| - 1]
  }

  /** Every entry but the root is in a directory, and a link carries the mode Linux gives to links. */
  ghost predicate WellFormed(t: Tree) {
    && [] in t && t[[]].kind.Dir?
    && (forall p {:trigger Parent(p)} :: p in t ==> Parent(p) in t && t[Parent(p)].kind.Dir?)
    && (forall p :: p in t && t[p].kind.Link? ==> t[p].mode & 0x1FF == 0x1FF)
  }

  datatype Walk = Found(entry: Entry) | Missing | NotADirectory | Outside

  /** Resolving a path component by component; the last one is not followed. */
  function Find(t: Tree, p: Path): Walk
    decreases |p|
  {
    if p == [] then (if p in t then Found(t[p]) else Missing)
    else
      match Find(t, Parent(p))
      case Found(e) =>
        (match e.kind
         case Dir => if p in t then Found(t[p]) else Missing
         case File(_) => NotADirectory
         case Link => Outside)
      case other => other
  }

  lemma {:induction false} FindsExactlyEntries(t: Tree, p: Path)
    requires WellFormed(t)
    ensures p in t ==> Find(t, p) == Found(t[p])
    ensures Find(t, p).Found? ==> p in t
    decreases |p|
  {
    if p != [] {
      FindsExactlyEntries(t, Parent(p));
    }
  }

  predicate RootOwnedNotWritable(e: Entry) {
    e.uid == 0 && e.mode & 0x12 == 0
  }

  /** Bit `k` of the permissions, counted from the least. */
  predicate HasBit(mode: Mode, k: nat)
    requires k < 32
  {
    (mode >> k as bv6) & 1 == 1
  }

  /** The group's write bit is the fifth from below, and the others' the second. */
  lemma WriteBits(e: Entry)
    ensures RootOwnedNotWritable(e) <==> e.uid == 0 && !HasBit(e.mode, 4) && !HasBit(e.mode, 1)
  {
    var m := e.mode;
    assert m & 0x12 == 0 <==> (m >> 4) & 1 == 0 && (m >> 1) & 1 == 0;
    assert ((m >> 4) & 1 == 0 || (m >> 4) & 1 == 1) && ((m >> 1) & 1 == 0 || (m >> 1) & 1 == 1);
  }

  /** The mode that staging sets: everything for the owner, reading and searching for the rest. */
  lemma ModeBits(k: nat)
    requires k < 9
    ensures HasBit(MODE_0755, k) <==> k != 1 && k != 4
  {
  }

  predicate PrefixComponentSafe(e: Entry) {
    !e.kind.Link? && RootOwnedNotWritable(e)
  }

  lemma LinkIsNeverSafe(t: Tree, p: Path)
    requires WellFormed(t) && p in t && t[p].kind.Link?
    ensures !RootOwnedNotWritable(t[p])
  {
    var m := t[p].mode;
    assert m & 0x12 == (m & 0x1FF) & 0x12;
  }

  /** What is there of a path and above it is safe, and whatever has something below it is a directory. */
  ghost predicate PrefixSafe(t: Tree, p: Path) {
    forall k :: 0 <= k <= |p| && p[..k] in t ==>
      PrefixComponentSafe(t[p[..k]]) && (k < |p| ==> t[p[..k]].kind.Dir?)
  }

  lemma {:induction false} SafePrefixStaysInside(t: Tree, p: Path, k: nat)
    requires WellFormed(t) && PrefixSafe(t, p) && k <= |p|
    ensures Find(t, p[..k]) == if p[..k] in t then Found(t[p[..k]]) else Missing
    decreases k
  {
    FindsExactlyEntries(t, p[..k]);
    if k > 0 {
      SafePrefixStaysInside(t, p, k - 1);
      assert Parent(p[..k]) == p[..k - 1];
    }
  }

  lemma BelowAFile(t: Tree, p: Path, k: nat)
    requires WellFormed(t) && k < |p| && p[..k] in t && t[p[..k]].kind.File?
    ensures Find(t, p[..k + 1]) == NotADirectory
  {
    FindsExactlyEntries(t, p[..k]);
    assert Parent(p[..k + 1]) == p[..k];
  }

  function Get(t: Tree, p: Path): Option<Entry> {
    if p in t then Some(t[p]) else None
  }

  /** `now` adds to `was` only directories on the way to `p`. */
  ghost predicate GrowsTowards(was: Tree, now: Tree, p: Path) {
    && (forall q :: q in was ==> q in now && now[q] == was[q])
    && (forall q :: q in now && q !in was ==> q <= p && now[q].kind.Dir?)
  }

  lemma AddedStaysSafe(was: Tree, now: Tree, p: Path, m: nat)
    requires PrefixSafe(was, p) && m <= |p| && now == was[p[..m] := Entry(Dir, 0, MODE_0755)]
    ensures PrefixSafe(now, p)
  {
    assert MODE_0755 & 0x12 == 0;
    forall k | 0 <= k <= |p| && p[..k] in now
      ensures PrefixComponentSafe(now[p[..k]]) && (k < |p| ==> now[p[..k]].kind.Dir?)
    {
      if k != m {
        assert |p[..k]| != |p[..m]|;
      }
    }
  }

  lemma StillGrows(was: Tree, before: Tree, now: Tree, p: Path, m: nat)
    requires GrowsTowards(was, before, p) && m <= |p|
    requires || now == before
             || (&& p[..m] !in before && p[..m] in now && now[p[..m]].kind.Dir?
                 && now == before[p[..m] := now[p[..m]]])
    ensures GrowsTowards(was, now, p)
  {
  }

  lemma GrowsOn(was: Tree, before: Tree, now: Tree, p: Path)
    requires GrowsTowards(was, before, p) && GrowsTowards(before, now, p)
    ensures GrowsTowards(was, now, p)
  {
  }

  datatype Stat = Is(entry: Entry) | NotFound | StatError

  datatype Check = Passed | Refused(at: Path) | IoError

  /** One component of the prefix check. */
  ghost predicate ComponentPasses(t: Tree, p: Path) {
    !Find(t, p).NotADirectory? && (p in t ==> PrefixComponentSafe(t[p]))
  }

  lemma PassedIsSafe(t: Tree, p: Path)
    requires WellFormed(t)
    requires forall j :: 0 <= j <= |p| ==> ComponentPasses(t, p[..j])
    ensures PrefixSafe(t, p)
  {
    forall k | 0 <= k < |p| && p[..k] in t ensures t[p[..k]].kind.Dir? {
      assert ComponentPasses(t, p[..k]) && ComponentPasses(t, p[..k + 1]);
      if t[p[..k]].kind.File? {
        BelowAFile(t, p, k);
      }
    }
  }

  datatype Outcome = Staged(dest: Path) | Refused(at: Path) | Failed

  /** Every directory down to `dir`, and the file in it, belongs to root and only root may write it. */
  ghost predicate ChainIsRoots(t: Tree, dir: Path, name: string) {
    && (forall k :: 0 <= k <= |dir| ==> dir[..k] in t && t[dir[..k]].kind.Dir? && RootOwnedNotWritable(t[dir[..k]]))
    && dir + [name] in t && t[dir + [name]].kind.File? && RootOwnedNotWritable(t[dir + [name]])
  }

  /** When staging can succeed: the source must be neither the destination nor in the leaf's place. */
  ghost predicate Stageable(t: Tree, source: Path, dir: Path, name: string) {
    && PrefixSafe(t, Parent(dir)) && (Parent(dir) in t ==> t[Parent(dir)].kind.Dir?)
    && (dir + [name] in t ==> !t[dir + [name]].kind.Dir?)
    && source != dir + [name] && source != dir
  }

  /**
   The check does not look at whether the last component is a directory: a root-owned file there
   passes it, and nothing can be staged below.
   */
  lemma FilePassesPrefixCheck(content: seq<byte>) returns (t: Tree, prefix: Path)
    ensures WellFormed(t) && prefix in t && t[prefix].kind == File(content) && PrefixSafe(t, prefix)
    ensures forall source, leaf, name :: !Stageable(t, source, prefix + [leaf], name)
  {
    prefix := ["lib"];
    t := map[[] := Entry(Dir, 0, MODE_0755), prefix := Entry(File(content), 0, MODE_0755)];
    assert MODE_0755 & 0x12 == 0;
    assert prefix[..0] == [] && prefix[..1] == prefix;
    assert Parent(prefix) == [] && Parent([]) == [];
    forall source, leaf, name ensures !Stageable(t, source, prefix + [leaf], name) {
      assert Parent(prefix + [leaf]) == prefix;
    }
  }

  lemma LeafIsInside(t: Tree, dir: Path)
    requires WellFormed(t) && PrefixSafe(t, Parent(dir)) && Parent(dir) in t
    ensures !Find(t, dir).Outside?
  {
    var p := Parent(dir);
    assert p[..|p|] == p;
    FindsExactlyEntries(t, p);
  }

  lemma ChainHolds(grown: Tree, now: Tree, dir: Path, name: string)
    requires PrefixSafe(grown, Parent(dir)) && WellFormed(now)
    requires forall p :: p != dir && p != dir + [name] ==> Get(now, p) == Get(grown, p)
    requires dir in now && now[dir] == Entry(Dir, 0, MODE_0755)
    ensures forall k :: 0 <= k <= |dir| ==>
              dir[..k] in now && now[dir[..k]].kind.Dir? && RootOwnedNotWritable(now[dir[..k]])
  {
    assert MODE_0755 & 0x12 == 0;
    assert dir[..|dir|] == dir;
    forall k | 0 <= k < |dir|
      ensures dir[..k] in now && now[dir[..k]].kind.Dir? && RootOwnedNotWritable(now[dir[..k]])
    {
      AncestorsAreDirs(now, dir, k);
      assert Parent(dir)[..k] == dir[..k];
      assert |dir[..k]| < |dir|;
      assert Get(now, dir[..k]) == Get(grown, dir[..k]);
    }
  }

  lemma {:induction false} AncestorsAreDirs(t: Tree, p: Path, k: nat)
    requires WellFormed(t) && p in t && k < |p|
    ensures p[..k] in t && t[p[..k]].kind.Dir?
    decreases |p| - k
  {
    if k + 1 < |p| {
      AncestorsAreDirs(t, p, k + 1);
    } else {
      assert p[..k + 1] == p;
    }
    assert Parent(p[..k + 1]) == p[..k];
  }

  /** Growing towards the prefix and then changing the leaf and what is in it touches only the chain. */
  lemma OnTheChain(was: Tree, grown: Tree, now: Tree, dir: Path, name: string)
    requires GrowsTowards(was, grown, Parent(dir))
    requires forall p :: p != dir && p != dir + [name] ==> Get(now, p) == Get(grown, p)
    ensures forall p :: !(p <= dir + [name]) ==> Get(now, p) == Get(was, p)
    ensures forall p :: p < dir && p in was ==> p in now && now[p] == was[p]
  {
    forall p | !(p <= dir + [name]) ensures Get(now, p) == Get(was, p) {
      assert p <= Parent(dir) ==> p <= dir + [name];
      assert Get(now, p) == Get(grown, p);
    }
    forall p | p < dir && p in was ensures p in now && now[p] == was[p] {
      assert Get(now, p) == Get(grown, p);
    }
  }

  /** A directory creation as it found the tree. */
  datatype Mkdir = Mkdir(path: Path, parentIsDir: bool, absent: bool)

  /** Every creation found its parent a directory and, unless some call failed of itself, its name free. */
  ghost predicate MadeInOrder(made: seq<Mkdir>, faulted: bool) {
    forall m :: m in made ==> m.parentIsDir && (m.absent || faulted)
  }

  class Machine {
    var entries: Tree
    /** Whether some call has failed for a reason other than the state of the tree. */
    var faulted: bool
    var made: seq<Mkdir>

    constructor (entries: Tree)
      ensures this.entries == entries && !faulted && made == []
    {
      this.entries, faulted, made := entries, false, [];
    }

    // -- system calls --------------------------------------------------------------------------

    method Fault() returns (fails: bool)
      modifies this`faulted
      ensures faulted == (old(faulted) || fails)
    {
      fails := *;
      faulted := faulted || fails;
    }

    method Lstat(p: Path) returns (r: Stat)
      modifies this`faulted
      ensures old(faulted) ==> faulted
      ensures match Find(entries, p)
              case Found(e) => r == Is(e) || (r == StatError && faulted)
              case Missing => r == NotFound || (r == StatError && faulted)
              case NotADirectory => r == StatError
              case Outside => true
    {
      var fails := Fault();
      match Find(entries, p)
      case Found(e) => r := if fails then StatError else Is(e);
      case Missing => r := if fails then StatError else NotFound;
      case NotADirectory => r := StatError;
      case Outside => r := *;
    }

    /** Follows links, and takes an error for absence. */
    method Exists(p: Path) returns (there: bool)
      modifies this`faulted
      ensures old(faulted) ==> faulted
      ensures var f := Find(entries, p);
              && (there ==> f.Found? || f.Outside?)
              && (!there && !faulted && f.Found? ==> f.entry.kind.Link?)
    {
      var fails := Fault();
      var followed: bool := *;
      match Find(entries, p)
      case Found(e) => there := !fails && (e.kind.Link? ==> followed);
      case Missing => there := false;
      case NotADirectory => there := false;
      case Outside => there := !fails && followed;
    }

    /** The new directory's owner and mode are up to the system. */
    method CreateDir(p: Path) returns (ok: bool)
      requires WellFormed(entries)
      modifies this
      ensures WellFormed(entries) && (old(faulted) ==> faulted)
      ensures var parentIsDir := p == [] || (Parent(p) in old(entries) && old(entries)[Parent(p)].kind.Dir?);
              && made == old(made) + [Mkdir(p, parentIsDir, p !in old(entries))]
              && (p in old(entries) ==> !ok)
              && (!faulted && parentIsDir && p !in old(entries) ==> ok)
      ensures !ok ==> entries == old(entries)
      ensures ok && !Find(old(entries), p).Outside? ==>
                p in entries && entries[p].kind.Dir? && entries == old(entries)[p := entries[p]]
      ensures ok && Find(old(entries), p).Outside? ==> entries == old(entries)
    {
      made := made + [Mkdir(p, p == [] || (Parent(p) in entries && entries[Parent(p)].kind.Dir?), p !in entries)];
      FindsExactlyEntries(entries, p);
      FindsExactlyEntries(entries, Parent(p));
      var fails := Fault();
      match Find(entries, p)
      case Found(_) => ok := false;
      case Missing =>
        ok := !fails && Find(entries, Parent(p)).Found?;
        if ok {
          var uid: nat := *;
          var mode: Mode := *;
          entries := entries[p := Entry(Dir, uid, mode)];
        }
      case NotADirectory => ok := false;
      case Outside => ok := *;
    }

    /** Unlinks a file or a link, never what a link leads to. */
    method RemoveFile(p: Path) returns (ok: bool)
      requires WellFormed(entries)
      modifies this`entries, this`faulted
      ensures WellFormed(entries) && (old(faulted) ==> faulted)
      ensures entries == if ok && p in old(entries) then old(entries) - {p} else old(entries)
      ensures p in old(entries) && old(entries)[p].kind.Dir? ==> !ok
      ensures p in old(entries) && !old(entries)[p].kind.Dir? && !faulted ==> ok
    {
      FindsExactlyEntries(entries, p);
      var fails := Fault();
      ok := false;
      match Find(entries, p)
      case Found(e) =>
        ok := !fails && !e.kind.Dir?;
        if ok {
          entries := entries - {p};
        }
      case Outside => ok := *;
      case _ =>
    }

    /** Changes the owner or the mode of what a path leads to. */
    method Chown(p: Path, uid: nat) returns (ok: bool)
      requires WellFormed(entries)
      modifies this`entries, this`faulted
      ensures WellFormed(entries) && (old(faulted) ==> faulted)
      ensures entries == if ok && p in old(entries) && !old(entries)[p].kind.Link?
                         then old(entries)[p := old(entries)[p].(uid := uid)] else old(entries)
      ensures p in old(entries) && !old(entries)[p].kind.Link? && !faulted ==> ok
    {
      FindsExactlyEntries(entries, p);
      var fails := Fault();
      ok := false;
      if p in entries && !entries[p].kind.Link? {
        ok := !fails;
        if ok {
          entries := entries[p := entries[p].(uid := uid)];
        }
      } else if Find(entries, p).Found? || Find(entries, p).Outside? {
        ok := *;
      }
    }

    method Chmod(p: Path, mode: Mode) returns (ok: bool)
      requires WellFormed(entries)
      modifies this`entries, this`faulted
      ensures WellFormed(entries) && (old(faulted) ==> faulted)
      ensures entries == if ok && p in old(entries) && !old(entries)[p].kind.Link?
                         then old(entries)[p := old(entries)[p].(mode := mode)] else old(entries)
      ensures p in old(entries) && !old(entries)[p].kind.Link? && !faulted ==> ok
    {
      FindsExactlyEntries(entries, p);
      var fails := Fault();
      ok := false;
      if p in entries && !entries[p].kind.Link? {
        ok := !fails;
        if ok {
          entries := entries[p := entries[p].(mode := mode)];
        }
      } else if Find(entries, p).Found? || Find(entries, p).Outside? {
        ok := *;
      }
    }

    /** Owner root, mode 0755; what it does to a link's target is not in the tree. */
    method GiveToRoot(p: Path) returns (ok: bool)
      requires WellFormed(entries) && p in entries
      modifies this`entries, this`faulted
      ensures WellFormed(entries) && (old(faulted) ==> faulted)
      ensures p in entries && entries == old(entries)[p := entries[p]] && entries[p].kind == old(entries)[p].kind
      ensures old(entries)[p].kind.Link? ==> entries == old(entries)
      ensures ok && !old(entries)[p].kind.Link? ==> entries[p] == Entry(old(entries)[p].kind, 0, MODE_0755)
      ensures !old(entries)[p].kind.Link? && !faulted ==> ok
    {
      ok := Chown(p, 0);
      if ok {
        ok := Chmod(p, MODE_0755);
      }
    }

    /** What a path leads to, read as a file. */
    method Read(p: Path) returns (r: Option<seq<byte>>)
      requires WellFormed(entries)
      modifies this`faulted
      ensures old(faulted) ==> faulted
      ensures p in entries && entries[p].kind.File? ==> r == Some(entries[p].kind.content) || (r.None? && faulted)
      ensures p in entries && entries[p].kind.Dir? ==> r.None?
      ensures Find(entries, p).Missing? ==> r.None?
    {
      FindsExactlyEntries(entries, p);
      var fails := Fault();
      r := None;
      match Find(entries, p)
      case Found(Entry(File(content), _, _)) => r := if fails then None else Some(content);
      case Found(Entry(Link, _, _)) => r := *;
      case Outside => r := *;
      case _ =>
    }

    /**
     Opens the destination for writing, empties or creates it, and fills it; a fault may leave it
     partly filled. Copying a file onto itself empties it before it is read.
     */
    method Copy(source: Path, dest: Path) returns (ok: bool)
      requires WellFormed(entries)
      modifies this`entries, this`faulted
      ensures WellFormed(entries) && (old(faulted) ==> faulted)
      ensures forall p :: p != dest ==> Get(entries, p) == Get(old(entries), p)
      ensures dest in old(entries) ==> dest in entries && (old(entries)[dest].kind.File? == entries[dest].kind.File?)
                                       && (!old(entries)[dest].kind.File? ==> entries[dest] == old(entries)[dest])
      ensures dest in old(entries) && old(entries)[dest].kind.Dir? ==> !ok
      ensures dest !in old(entries) && dest in entries ==> entries[dest].kind.File?
      ensures source in old(entries) && old(entries)[source].kind.Dir? ==> !ok
      ensures Find(old(entries), source).Missing? ==> !ok && entries == old(entries)
      ensures && ok && source != dest && source in old(entries) && old(entries)[source].kind.File?
              && dest in entries && entries[dest].kind.File?
              ==> entries[dest].kind.content == old(entries)[source].kind.content
      ensures && !faulted && source in old(entries) && old(entries)[source].kind.File?
              && Find(old(entries), dest).Missing?
              && Parent(dest) in old(entries) && old(entries)[Parent(dest)].kind.Dir?
              ==> ok
      ensures ok && Parent(dest) in old(entries) && old(entries)[Parent(dest)].kind.Dir? ==> dest in entries
    {
      FindsExactlyEntries(entries, dest);
      FindsExactlyEntries(entries, Parent(dest));
      var data := Read(source);
      var fails := Fault();
      ok := false;
      if data.Some? {
        var to := Find(entries, dest);
        if to.Outside? || (to.Found? && to.entry.kind.Link?) {
          ok := *;
        } else if (to.Found? && to.entry.kind.File?) || (to.Missing? && Find(entries, Parent(dest)).Found?) {
          var all := if source == dest then [] else data.value;
          var written :| 0 <= written <= |all|;
          var uid: nat := *;
          var mode: Mode := *;
          ok := !fails;
          entries := entries[dest := Entry(File(if fails then all[..written] else all), uid, mode)];
        }
      }
    }

    // -- staging -------------------------------------------------------------------------------

    /** Looks at a path and everything above it, longest first; changes nothing. */
    method EnsurePrefixRootOwnedNotWritable(prefix: Path) returns (r: Check)
      requires WellFormed(entries)
      modifies this`faulted
      ensures old(faulted) ==> faulted
      ensures r == Passed ==> PrefixSafe(entries, prefix)
      ensures !faulted ==> (r == Passed <==> PrefixSafe(entries, prefix))
      ensures r.Refused? ==> r.at <= prefix && !PrefixSafe(entries, prefix)
    {
      var k := |prefix| + 1;
      while k > 0
        invariant 0 <= k <= |prefix| + 1
        invariant old(faulted) ==> faulted
        invariant forall j :: k <= j <= |prefix| ==> ComponentPasses(entries, prefix[..j])
      {
        k := k - 1;
        FindsExactlyEntries(entries, prefix[..k]);
        var stat := Lstat(prefix[..k]);
        match stat
        case Is(e) =>
          if !PrefixComponentSafe(e) {
            if PrefixSafe(entries, prefix) {
              SafePrefixStaysInside(entries, prefix, k);
            }
            return Check.Refused(prefix[..k]);
          }
        case NotFound =>
        case StatError =>
          if PrefixSafe(entries, prefix) {
            SafePrefixStaysInside(entries, prefix, k);
          }
          return IoError;
      }
      PassedIsSafe(entries, prefix);
      return Passed;
    }

    /** One missing directory: created, given to root, made writable by root alone. */
    method MakeRootDir(p: Path) returns (ok: bool)
      requires WellFormed(entries) && !Find(entries, p).Outside?
      modifies this
      ensures WellFormed(entries) && (old(faulted) ==> faulted)
      ensures var parentIsDir := p == [] || (Parent(p) in old(entries) && old(entries)[Parent(p)].kind.Dir?);
              && made == old(made) + [Mkdir(p, parentIsDir, p !in old(entries))]
              && (!faulted && parentIsDir && p !in old(entries) ==> ok)
      ensures if ok then p !in old(entries) && entries == old(entries)[p := Entry(Dir, 0, MODE_0755)]
              else || entries == old(entries)
                   || (&& p !in old(entries) && p in entries && entries[p].kind.Dir?
                       && entries == old(entries)[p := entries[p]])
    {
      ok := CreateDir(p);
      if ok {
        ok := GiveToRoot(p);
      }
    }

    /** The next directory on the way down to `target`, whose parent is there. */
    method MakeNext(target: Path, m: nat) returns (ok: bool)
      requires WellFormed(entries) && PrefixSafe(entries, target)
      requires m <= |target| && (m > 0 ==> target[..m - 1] in entries)
      modifies this
      ensures WellFormed(entries) && (old(faulted) ==> faulted)
      ensures GrowsTowards(old(entries), entries, target)
      ensures made == old(made) + [Mkdir(target[..m], true, target[..m] !in old(entries))]
      ensures !faulted && target[..m] !in old(entries) ==> ok
      ensures ok ==> PrefixSafe(entries, target) && target[..m] in entries
      ensures forall k :: m < k <= |target| ==> (target[..k] in entries <==> target[..k] in old(entries))
    {
      SafePrefixStaysInside(entries, target, m);
      assert m > 0 ==> Parent(target[..m]) == target[..m - 1];
      ok := MakeRootDir(target[..m]);
      StillGrows(old(entries), old(entries), entries, target, m);
      if ok {
        AddedStaysSafe(old(entries), entries, target, m);
      }
      forall k | m < k <= |target| ensures target[..k] in entries <==> target[..k] in old(entries) {
        assert |target[..k]| != |target[..m]|;
      }
    }

    method CreateDownwards(target: Path, toCreate: seq<Path>) returns (ok: bool)
      requires WellFormed(entries) && PrefixSafe(entries, target)
      requires |toCreate| <= |target| + 1
      requires forall i :: 0 <= i < |toCreate| ==> toCreate[i] == target[..|target| - i]
      requires |toCreate| <= |target| ==> target[..|target| - |toCreate|] in entries
      requires !faulted ==> forall i :: 0 <= i < |toCreate| ==> toCreate[i] !in entries
      modifies this
      ensures WellFormed(entries) && (old(faulted) ==> faulted)
      ensures GrowsTowards(old(entries), entries, target)
      ensures old(made) <= made
      ensures MadeInOrder(made[|old(made)|..], faulted)
      ensures ok ==> PrefixSafe(entries, target) && target in entries
      ensures !faulted ==> ok
    {
      var i := |toCreate|;
      while i > 0
        invariant 0 <= i <= |toCreate|
        invariant WellFormed(entries) && (old(faulted) ==> faulted) && PrefixSafe(entries, target)
        invariant GrowsTowards(old(entries), entries, target)
        invariant i <= |target| ==> target[..|target| - i] in entries
        invariant !faulted ==> forall j :: 0 <= j < i ==> toCreate[j] !in entries
        invariant old(made) <= made
        invariant MadeInOrder(made[|old(made)|..], faulted)
      {
        i := i - 1;
        ghost var before, journal := entries, made[|old(made)|..];
        ok := MakeNext(target, |target| - i);
        assert made[|old(made)|..] == journal + [Mkdir(toCreate[i], true, toCreate[i] !in before)];
        GrowsOn(old(entries), before, entries, target);
        if !ok {
          return;
        }
      }
      assert target[..|target|] == target;
      return true;
    }

    /**
     Creates the missing directories above `dir`, topmost first. Every creation finds its parent a
     directory; unless a call failed of itself, it also finds its own name free, and all succeed.
     */
    method CreateMissingIntermediates(dir: Path) returns (ok: bool)
      requires WellFormed(entries) && PrefixSafe(entries, Parent(dir))
      modifies this
      ensures WellFormed(entries) && (old(faulted) ==> faulted)
      ensures GrowsTowards(old(entries), entries, Parent(dir))
      ensures old(made) <= made
      ensures MadeInOrder(made[|old(made)|..], faulted)
      ensures ok ==> PrefixSafe(entries, Parent(dir)) && Parent(dir) in entries
      ensures !faulted ==> ok
    {
      var target := Parent(dir);
      SafePrefixStaysInside(entries, target, |target|);
      assert target[..|target|] == target;
      var there := Exists(target);
      if there {
        return true;
      }
      var toCreate: seq<Path> := [];
      var current := target;
      there := Exists(current);
      while !there
        invariant entries == old(entries) && made == old(made)
        invariant |toCreate| <= |target| && current == target[..|target| - |toCreate|]
        invariant forall i :: 0 <= i < |toCreate| ==> toCreate[i] == target[..|target| - i]
        invariant !faulted ==> forall i :: 0 <= i < |toCreate| ==> toCreate[i] !in entries
        invariant there ==> current in entries
        invariant !there && !faulted ==> current !in entries
        invariant old(faulted) ==> faulted
        decreases |current|, !there
      {
        toCreate := toCreate + [current];
        if current == [] {
          break;
        }
        current := Parent(current);
        SafePrefixStaysInside(entries, target, |current|);
        there := Exists(current);
      }
      ok := CreateDownwards(target, toCreate);
    }

    /** A real directory is kept; a file or a link in its place is unlinked, never followed. */
    method EnsureRealLeafDir(dir: Path) returns (ok: bool)
      requires WellFormed(entries) && !Find(entries, dir).Outside?
      modifies this
      ensures WellFormed(entries) && (old(faulted) ==> faulted)
      ensures forall p :: p != dir ==> Get(entries, p) == Get(old(entries), p)
      ensures dir in old(entries) && old(entries)[dir].kind.Dir? ==> entries == old(entries)
      ensures ok ==> dir in entries && entries[dir].kind.Dir?
      ensures !faulted ==> (ok <==> Parent(dir) in old(entries) && old(entries)[Parent(dir)].kind.Dir?)
    {
      FindsExactlyEntries(entries, dir);
      FindsExactlyEntries(entries, Parent(dir));
      var stat := Lstat(dir);
      match stat
      case Is(e) =>
        ok := true;
        if !e.kind.Dir? {
          ok := RemoveFile(dir);
          FindsExactlyEntries(entries, dir);
          FindsExactlyEntries(entries, Parent(dir));
          if ok {
            ok := CreateDir(dir);
          }
        }
      case NotFound => ok := CreateDir(dir);
      case StatError => ok := false;
    }

    /** Passes only what root owns and no one else may write; a link is judged itself. */
    method EnsureRootOwnedNotWritable(p: Path) returns (ok: bool)
      requires WellFormed(entries) && p in entries
      modifies this`faulted
      ensures old(faulted) ==> faulted
      ensures ok ==> RootOwnedNotWritable(entries[p]) && !entries[p].kind.Link?
      ensures !faulted ==> (ok <==> RootOwnedNotWritable(entries[p]))
    {
      FindsExactlyEntries(entries, p);
      if entries[p].kind.Link? {
        LinkIsNeverSafe(entries, p);
      }
      var stat := Lstat(p);
      ok := stat.Is? && RootOwnedNotWritable(stat.entry);
    }

    /** Unlinks the destination, not looking at whether that failed, and copies the program there. */
    method PlaceCopy(source: Path, dest: Path) returns (ok: bool)
      requires WellFormed(entries)
      requires dest != [] && Parent(dest) in entries && entries[Parent(dest)].kind.Dir?
      modifies this`entries, this`faulted
      ensures WellFormed(entries) && (old(faulted) ==> faulted)
      ensures forall p :: p != dest ==> Get(entries, p) == Get(old(entries), p)
      ensures ok ==> dest in entries && !entries[dest].kind.Dir?
      ensures && ok && entries[dest].kind.File? && source != dest && source in old(entries)
              ==> old(entries)[source].kind == entries[dest].kind || old(entries)[source].kind.Link?
      ensures ok && !faulted ==> entries[dest].kind.File?
      ensures && !faulted && source in old(entries) && old(entries)[source].kind.File?
              ==> (ok <==> source != dest && (dest in old(entries) ==> !old(entries)[dest].kind.Dir?))
      ensures !faulted && source == dest && dest in old(entries) && old(entries)[dest].kind.File? ==> dest !in entries
    {
      var _ := RemoveFile(dest);
      FindsExactlyEntries(entries, dest);
      FindsExactlyEntries(entries, Parent(dest));
      assert !faulted && (dest in old(entries) ==> !old(entries)[dest].kind.Dir?) ==> Find(entries, dest).Missing?;
      ok := Copy(source, dest);
    }

    /**
     Replaces the destination by a copy of the program that root owns. What a failed removal leaves
     is overwritten or, being a link, caught by the last check.
     */
    method InstallProgram(source: Path, dir: Path, name: string) returns (ok: bool)
      requires WellFormed(entries) && dir in entries && entries[dir] == Entry(Dir, 0, MODE_0755)
      modifies this`entries, this`faulted
      ensures WellFormed(entries) && (old(faulted) ==> faulted)
      ensures forall p :: p != dir + [name] ==> Get(entries, p) == Get(old(entries), p)
      ensures var dest := dir + [name];
              && (ok ==> && dest in entries && entries[dest].kind.File?
                         && entries[dest].uid == 0 && entries[dest].mode == MODE_0755)
              && (ok && source != dest && source in old(entries) ==>
                    old(entries)[source].kind == entries[dest].kind || old(entries)[source].kind.Link?)
              && (!faulted && source in old(entries) && old(entries)[source].kind.File? ==>
                    (ok <==> source != dest && (dest in old(entries) ==> !old(entries)[dest].kind.Dir?)))
              && (!faulted && source == dest && dest in old(entries) && old(entries)[dest].kind.File? ==>
                    dest !in entries)
    {
      var dest := dir + [name];
      assert Parent(dest) == dir;
      assert MODE_0755 & 0x12 == 0;
      ok := PlaceCopy(source, dest);
      assert Get(entries, dir) == Get(old(entries), dir);
      if ok {
        ok := GiveToRoot(dest);
      }
      if ok {
        ok := EnsureRootOwnedNotWritable(dir);
      }
      if ok {
        ok := EnsureRootOwnedNotWritable(dest);
      }
    }

    /** The leaf directory, made real and given to root. */
    method PrepareLeaf(dir: Path) returns (ok: bool)
      requires WellFormed(entries) && !Find(entries, dir).Outside?
      modifies this
      ensures WellFormed(entries) && (old(faulted) ==> faulted)
      ensures forall p :: p != dir ==> Get(entries, p) == Get(old(entries), p)
      ensures ok ==> dir in entries && entries[dir] == Entry(Dir, 0, MODE_0755)
      ensures !faulted ==> (ok <==> Parent(dir) in old(entries) && old(entries)[Parent(dir)].kind.Dir?)
    {
      ok := EnsureRealLeafDir(dir);
      if ok {
        ok := GiveToRoot(dir);
      }
    }

    /**
     Staging `source` as `name` in `dir`. A refused prefix leaves everything as it was. Success
     means that the whole chain down to the copy is root's and no one else's to write, and that the
     copy is the program; whatever the outcome, nothing off that chain changes and nothing that was
     above the leaf does. Unless a call fails of itself, it succeeds exactly when `Stageable`; staging
     the staged copy itself removes it.
     */
    method Stage(source: Path, dir: Path, name: string) returns (r: Outcome)
      requires WellFormed(entries)
      modifies this
      ensures WellFormed(entries)
      ensures !PrefixSafe(old(entries), Parent(dir)) ==> !r.Staged? && entries == old(entries) && made == old(made)
      ensures r.Refused? ==> entries == old(entries) && made == old(made)
      ensures r.Staged? ==> r.dest == dir + [name] && ChainIsRoots(entries, dir, name)
      ensures && r.Staged? && source != r.dest && source in old(entries) && !old(entries)[source].kind.Link?
              ==> entries[r.dest].kind == old(entries)[source].kind
      ensures forall p :: !(p <= dir + [name]) ==> Get(entries, p) == Get(old(entries), p)
      ensures forall p :: p < dir && p in old(entries) ==> p in entries && entries[p] == old(entries)[p]
      ensures && !faulted && source in old(entries) && old(entries)[source].kind.File?
              ==> (r.Staged? <==> Stageable(old(entries), source, dir, name))
      ensures && !faulted && source == dir + [name] && source in old(entries) && old(entries)[source].kind.File?
              && PrefixSafe(old(entries), Parent(dir))
              && (Parent(dir) in old(entries) ==> old(entries)[Parent(dir)].kind.Dir?)
              ==> source !in entries
    {
      var prefix := Parent(dir);
      var check := EnsurePrefixRootOwnedNotWritable(prefix);
      match check
      case Refused(at) => return Outcome.Refused(at);
      case IoError => return Failed;
      case Passed =>
      var ok := CreateMissingIntermediates(dir);
      ghost var grown := entries;
      if !ok {
        OnTheChain(old(entries), grown, grown, dir, name);
        return Failed;
      }
      LeafIsInside(entries, dir);
      ok := PrepareLeaf(dir);
      if !ok {
        OnTheChain(old(entries), grown, entries, dir, name);
        return Failed;
      }
      ghost var prepared := entries;
      assert Get(prepared, dir + [name]) == Get(grown, dir + [name]) == Get(old(entries), dir + [name]) by {
        assert |dir + [name]| > |Parent(dir)|;
      }
      assert source != dir ==> Get(prepared, source) == Get(grown, source);
      ok := InstallProgram(source, dir, name);
      assert forall p :: p != dir && p != dir + [name] ==> Get(entries, p) == Get(prepared, p) == Get(grown, p);
      OnTheChain(old(entries), grown, entries, dir, name);
      if !ok {
        return Failed;
      }
      assert Get(entries, dir) == Get(prepared, dir);
      ChainHolds(grown, entries, dir, name);
      assert MODE_0755 & 0x12 == 0;
      r := Outcome.Staged(dir + [name]);
    }
  }
}
