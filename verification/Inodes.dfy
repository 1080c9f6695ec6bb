/**
 The mount's inode table: a bounded least-recently-used list of (inode, path)
 entries, with a reverse index that saves scanning it and a set of paths known to
 be directories. The root has a fixed inode outside the table. `Table` is the table
 without the index: there, paths are found by scanning.
 */
module Inodes {
  import opened Basics

  const ROOT_INO := 1

  datatype Entry = Entry(ino: nat, path: string)

  /** `lru` runs from the least to the most recently used entry. */
  datatype Table = Table(cap: nat, nextIno: nat, lru: seq<Entry>, dirs: set<string>)

  function Empty(cap: nat): Table { Table(cap, 2, [], {}) }

  // ---------------------------------------------------------------------
  // Scanning and reordering the list
  // ---------------------------------------------------------------------

  /** Where the path is, or the length of the list. */
  function PathAt(lru: seq<Entry>, path: string): (i: nat)
    ensures i <= |lru| && (i < |lru| ==> lru[i].path == path)
    ensures forall j | 0 <= j < i :: lru[j].path != path
  {
    if lru == [] || lru[0].path == path then 0 else 1 + PathAt(lru[1..], path)
  }

  function InoAt(lru: seq<Entry>, ino: nat): (i: nat)
    ensures i <= |lru| && (i < |lru| ==> lru[i].ino == ino)
    ensures forall j | 0 <= j < i :: lru[j].ino != ino
  {
    if lru == [] || lru[0].ino == ino then 0 else 1 + InoAt(lru[1..], ino)
  }

  function Without(lru: seq<Entry>, i: nat): seq<Entry>
    requires i < |lru|
  {
    lru[..i] + lru[i + 1..]
  }

  /** Using an entry makes it the most recent one. */
  function Touch(lru: seq<Entry>, i: nat): seq<Entry>
    requires i < |lru|
  {
    Without(lru, i) + [lru[i]]
  }

  predicate Distinct(lru: seq<Entry>) {
    forall i, j | 0 <= i < j < |lru| :: lru[i].ino != lru[j].ino && lru[i].path != lru[j].path
  }

  lemma OnlyOne(lru: seq<Entry>, a: Entry, b: Entry)
    requires Distinct(lru) && a in lru && b in lru
    ensures a.ino == b.ino || a.path == b.path ==> a == b
  {
    var i :| 0 <= i < |lru| && lru[i] == a;
    var j :| 0 <= j < |lru| && lru[j] == b;
  }

  lemma WithoutMembers(lru: seq<Entry>, i: nat)
    requires i < |lru| && Distinct(lru)
    ensures Distinct(Without(lru, i))
    ensures forall e :: e in Without(lru, i) <==> e in lru && e != lru[i]
  {
    forall e ensures e in Without(lru, i) <==> e in lru && e != lru[i] {
      if e in lru && e != lru[i] {
        var j :| 0 <= j < |lru| && lru[j] == e;
        assert Without(lru, i)[if j < i then j else j - 1] == e;
      }
      if e in Without(lru, i) {
        var j :| 0 <= j < |lru| - 1 && Without(lru, i)[j] == e;
        assert lru[if j < i then j else j + 1] == e;
      }
    }
  }

  lemma SnocDistinct(lru: seq<Entry>, e: Entry)
    requires Distinct(lru) && forall x | x in lru :: x.ino != e.ino && x.path != e.path
    ensures Distinct(lru + [e])
  {
    assert forall i | 0 <= i < |lru| :: lru[i] in lru;
  }

  lemma TouchMembers(lru: seq<Entry>, i: nat)
    requires i < |lru| && Distinct(lru)
    ensures Distinct(Touch(lru, i)) && |Touch(lru, i)| == |lru|
    ensures forall e :: e in Touch(lru, i) <==> e in lru
  {
    WithoutMembers(lru, i);
    forall x | x in Without(lru, i) ensures x.ino != lru[i].ino && x.path != lru[i].path {
      assert x in lru && x != lru[i];
    }
    SnocDistinct(Without(lru, i), lru[i]);
  }

  // ---------------------------------------------------------------------
  // Operations
  // ---------------------------------------------------------------------

  /** Add a fresh inode at the recent end; a full table gives up its oldest entry. */
  function Inserted(t: Table, path: string): Table
    requires t.cap > 0
  {
    var full := |t.lru| >= t.cap;
    Table(t.cap, t.nextIno + 1,
          (if full then t.lru[1..] else t.lru) + [Entry(t.nextIno, path)],
          if full then t.dirs - {t.lru[0].path} else t.dirs)
  }

  function InoForPath(t: Table, path: string): (Table, nat)
    requires t.cap > 0
  {
    var i := PathAt(t.lru, path);
    if path == "/" then (t, ROOT_INO)
    else if i < |t.lru| then (t.(lru := Touch(t.lru, i)), t.lru[i].ino)
    else (Inserted(t, path), t.nextIno)
  }

  function PathForIno(t: Table, ino: nat): (Table, Option<string>) {
    var i := InoAt(t.lru, ino);
    if ino == ROOT_INO then (t, Some("/"))
    else if i < |t.lru| then (t.(lru := Touch(t.lru, i)), Some(t.lru[i].path))
    else (t, None)
  }

  /** A lookup the host answered: note a directory, then find or allocate the inode. */
  function Looked(t: Table, path: string, isDir: bool): (Table, nat)
    requires t.cap > 0
  {
    InoForPath(if isDir then t.(dirs := t.dirs + {path}) else t, path)
  }

  /** The list without the entry of a path, if it has one. */
  function Evicting(lru: seq<Entry>, path: string): seq<Entry> {
    var i := PathAt(lru, path);
    if i < |lru| then Without(lru, i) else lru
  }

  /** The source keeps its inode under the new path and becomes the most recent; the destination's entry goes. */
  function Renamed(t: Table, source: string, target: string): (Table, Option<nat>) {
    var i := PathAt(t.lru, source);
    if source == "/" || target == "/" || i >= |t.lru| then (t, None)
    else
      var ino := t.lru[i].ino;
      (t.(lru := Evicting(Without(t.lru, i), target) + [Entry(ino, target)]), Some(ino))
  }

  // ---------------------------------------------------------------------
  // The invariant
  // ---------------------------------------------------------------------

  predicate Tracked(t: Table, path: string) {
    exists e | e in t.lru :: e.path == path
  }

  ghost predicate ListOk(t: Table) {
    && 0 < t.cap && |t.lru| <= t.cap && ROOT_INO < t.nextIno
    && Distinct(t.lru)
    && (forall e | e in t.lru :: ROOT_INO < e.ino < t.nextIno && e.path != "/")
  }

  ghost predicate Inv(t: Table) {
    ListOk(t) && forall d | d in t.dirs :: Tracked(t, d)
  }

  /** In the middle of a lookup the path itself may already be noted as a directory. */
  ghost predicate InvBut(t: Table, path: string) {
    ListOk(t) && forall d | d in t.dirs && d != path :: Tracked(t, d)
  }

  lemma InsertedOk(t: Table, path: string)
    requires InvBut(t, path) && path != "/" && PathAt(t.lru, path) == |t.lru|
    ensures Inv(Inserted(t, path))
  {
    var e := Entry(t.nextIno, path);
    var kept := if |t.lru| >= t.cap then t.lru[1..] else t.lru;
    assert forall x | x in kept :: x in t.lru;
    forall x | x in kept ensures x.ino != e.ino && x.path != e.path {
      var j :| 0 <= j < |t.lru| && t.lru[j] == x;
    }
    SnocDistinct(kept, e);
    var t' := Inserted(t, path);
    assert t'.lru == kept + [e] && e in t'.lru;
    forall d | d in t'.dirs ensures Tracked(t', d) {
      if d != path {
        var x: Entry :| x in t.lru && x.path == d;
        assert x in kept;
        assert x in t'.lru;
      }
    }
  }

  lemma TouchOk(t: Table, i: nat)
    requires i < |t.lru| && InvBut(t, t.lru[i].path)
    ensures Inv(t.(lru := Touch(t.lru, i)))
  {
    TouchMembers(t.lru, i);
    var t' := t.(lru := Touch(t.lru, i));
    forall d | d in t'.dirs ensures Tracked(t', d) {
      if d == t.lru[i].path {
        assert t.lru[i] in t'.lru;
      } else {
        var x: Entry :| x in t.lru && x.path == d;
        assert x in t'.lru;
      }
    }
  }

  lemma EvictingMembers(lru: seq<Entry>, path: string)
    requires Distinct(lru)
    ensures Distinct(Evicting(lru, path)) && |Evicting(lru, path)| <= |lru|
    ensures forall e :: e in Evicting(lru, path) <==> e in lru && e.path != path
  {
    var i := PathAt(lru, path);
    if i < |lru| {
      WithoutMembers(lru, i);
      forall e | e in lru && e != lru[i] ensures e.path != path {
        var j :| 0 <= j < |lru| && lru[j] == e;
      }
    } else {
      forall e | e in lru ensures e.path != path {
        var j :| 0 <= j < |lru| && lru[j] == e;
      }
    }
  }

  lemma RenamedMembers(t: Table, source: string, target: string)
    requires Inv(t) && Renamed(t, source, target).1.Some?
    ensures var (t', ino) := Renamed(t, source, target);
            && Distinct(t'.lru) && |t'.lru| <= |t.lru|
            && Entry(ino.value, source) in t.lru && Entry(ino.value, target) in t'.lru
            && forall e: Entry | e.ino != ino.value :: e in t'.lru <==> e in t.lru && e.path != target
  {
    var i := PathAt(t.lru, source);
    var ino := t.lru[i].ino;
    assert t.lru[i] == Entry(ino, source) && t.lru[i] in t.lru;
    MovedMembers(t.lru, i, target);
  }

  lemma MovedMembers(lru: seq<Entry>, i: nat, target: string)
    requires Distinct(lru) && i < |lru|
    ensures var ino := lru[i].ino;
            var after := Evicting(Without(lru, i), target) + [Entry(ino, target)];
            && Distinct(after) && |after| <= |lru| && Entry(ino, target) in after
            && forall e: Entry | e.ino != ino :: e in after <==> e in lru && e.path != target
  {
    var rest, ino := Without(lru, i), lru[i].ino;
    WithoutMembers(lru, i);
    EvictingMembers(rest, target);
    var kept, moved := Evicting(rest, target), Entry(ino, target);
    forall x | x in kept ensures x.ino != ino && x.path != target {
      assert x in lru && x != lru[i] && lru[i] in lru;
      OnlyOne(lru, x, lru[i]);
    }
    SnocDistinct(kept, moved);
    assert forall e :: e in kept + [moved] <==> e in kept || e == moved;
  }

  lemma RenamedEntriesOk(t: Table, source: string, target: string, e: Entry)
    requires Inv(t) && Renamed(t, source, target).1.Some? && e in Renamed(t, source, target).0.lru
    ensures ROOT_INO < e.ino < t.nextIno && e.path != "/"
  {
    var (t', ino) := Renamed(t, source, target);
    RenamedMembers(t, source, target);
    var moved := Entry(ino.value, source);
    assert moved in t.lru && ROOT_INO < moved.ino < t.nextIno;
    OnlyOne(t'.lru, e, Entry(ino.value, target));
  }

  lemma RenamedDirsOk(t: Table, source: string, target: string, d: string)
    requires Inv(t) && source !in t.dirs && Renamed(t, source, target).1.Some? && d in t.dirs
    ensures Tracked(Renamed(t, source, target).0, d)
  {
    var (t', ino) := Renamed(t, source, target);
    RenamedMembers(t, source, target);
    var x: Entry :| x in t.lru && x.path == d;
    OnlyOne(t.lru, x, Entry(ino.value, source));
    if d == target {
      assert Entry(ino.value, target) in t'.lru;
    } else {
      assert x.ino != ino.value;
      assert x in t'.lru;
    }
  }

  lemma RenamedOk(t: Table, source: string, target: string)
    requires Inv(t) && source !in t.dirs
    ensures Inv(Renamed(t, source, target).0)
  {
    var (t', ino) := Renamed(t, source, target);
    if ino.Some? {
      RenamedMembers(t, source, target);
      forall e | e in t'.lru ensures ROOT_INO < e.ino < t'.nextIno && e.path != "/" {
        RenamedEntriesOk(t, source, target, e);
      }
      forall d | d in t'.dirs ensures Tracked(t', d) {
        RenamedDirsOk(t, source, target, d);
      }
    }
  }

  // ---------------------------------------------------------------------
  // Whole runs
  // ---------------------------------------------------------------------

  datatype Op =
    | AllocOp(path: string)
    | ResolveOp(ino: nat)
    | LookupOp(path: string, isDir: bool)
    | RenameOp(source: string, target: string)

  /** The mount refuses to rename a directory, and never looks the root up as a child. */
  function Perform(t: Table, op: Op): Table
    requires t.cap > 0
  {
    match op
    case AllocOp(path) => InoForPath(t, path).0
    case ResolveOp(ino) => PathForIno(t, ino).0
    case LookupOp(path, isDir) => if path == "/" then t else Looked(t, path, isDir).0
    case RenameOp(source, target) => if source in t.dirs then t else Renamed(t, source, target).0
  }

  lemma PerformOk(t: Table, op: Op)
    requires Inv(t)
    ensures Inv(Perform(t, op))
  {
    match op
    case AllocOp(path) => InoForPathOk(t, path);
    case ResolveOp(ino) =>
      if InoAt(t.lru, ino) < |t.lru| { TouchOk(t, InoAt(t.lru, ino)); }
    case LookupOp(path, isDir) =>
      if path != "/" { InoForPathOk(if isDir then t.(dirs := t.dirs + {path}) else t, path); }
    case RenameOp(source, target) =>
      if source !in t.dirs { RenamedOk(t, source, target); }
  }

  lemma InoForPathOk(t: Table, path: string)
    requires InvBut(t, path) && (path == "/" ==> Inv(t))
    ensures Inv(InoForPath(t, path).0)
  {
    if path != "/" {
      var i := PathAt(t.lru, path);
      if i < |t.lru| { TouchOk(t, i); } else { InsertedOk(t, path); }
    }
  }

  predicate HasIno(t: Table, ino: nat) {
    InoAt(t.lru, ino) < |t.lru|
  }

  lemma HasInoMeans(t: Table, ino: nat)
    ensures HasIno(t, ino) <==> exists e | e in t.lru :: e.ino == ino
  {
    if e: Entry :| e in t.lru && e.ino == ino {
      var j :| 0 <= j < |t.lru| && t.lru[j] == e;
    }
    if HasIno(t, ino) {
      assert t.lru[InoAt(t.lru, ino)] in t.lru;
    }
  }

  function Run(t: Table, ops: seq<Op>): Table
    requires t.cap > 0
    decreases |ops|
  {
    if ops == [] then t
    else
      var t' := Perform(t, ops[0]);
      assert t'.cap == t.cap;
      Run(t', ops[1..])
  }

  lemma RenameAllocatesNothing(t: Table, source: string, target: string, ino: nat)
    requires Inv(t) && HasIno(Perform(t, RenameOp(source, target)), ino)
    ensures HasIno(t, ino)
  {
    var t' := Perform(t, RenameOp(source, target));
    HasInoMeans(t', ino);
    HasInoMeans(t, ino);
    var e: Entry :| e in t'.lru && e.ino == ino;
    if source !in t.dirs && Renamed(t, source, target).1.Some? {
      RenamedMembers(t, source, target);
    }
  }

  /** New inodes are fresh ones; numbers only grow. */
  lemma PerformAllocatesUpwards(t: Table, op: Op, ino: nat)
    requires Inv(t) && HasIno(Perform(t, op), ino)
    ensures HasIno(t, ino) || ino >= t.nextIno
    ensures Perform(t, op).nextIno >= t.nextIno
  {
    if op.RenameOp? {
      RenameAllocatesNothing(t, op.source, op.target, ino);
    } else {
      OthersAllocateUpwards(t, op, ino);
    }
    NextInoGrows(t, op);
  }

  lemma OthersAllocateUpwards(t: Table, op: Op, ino: nat)
    requires Inv(t) && HasIno(Perform(t, op), ino) && !op.RenameOp?
    ensures HasIno(t, ino) || ino >= t.nextIno
  {
    var t' := Perform(t, op);
    HasInoMeans(t', ino);
    HasInoMeans(t, ino);
    var e: Entry :| e in t'.lru && e.ino == ino;
    var at := if op.ResolveOp? then InoAt(t.lru, op.ino) else PathAt(t.lru, op.path);
    if at < |t.lru| { TouchMembers(t.lru, at); }
  }

  /** Over every run the table stays sound, and an inode that left it never comes back. */
  lemma {:induction false} NeverReused(t: Table, ops: seq<Op>, ino: nat)
    requires Inv(t)
    ensures Inv(Run(t, ops)) && Run(t, ops).cap == t.cap
    ensures !HasIno(t, ino) && ino < t.nextIno ==> !HasIno(Run(t, ops), ino)
    decreases |ops|
  {
    if ops != [] {
      GoneStays(t, ops[0], ino);
      NeverReused(Perform(t, ops[0]), ops[1..], ino);
    }
  }

  lemma GoneStays(t: Table, op: Op, ino: nat)
    requires Inv(t)
    ensures Inv(Perform(t, op)) && Perform(t, op).cap == t.cap
    ensures !HasIno(t, ino) && ino < t.nextIno ==> !HasIno(Perform(t, op), ino) && ino < Perform(t, op).nextIno
  {
    PerformOk(t, op);
    if HasIno(Perform(t, op), ino) {
      PerformAllocatesUpwards(t, op, ino);
    }
    NextInoGrows(t, op);
  }

  lemma NextInoGrows(t: Table, op: Op)
    requires t.cap > 0
    ensures Perform(t, op).nextIno >= t.nextIno
  {
  }

  /**
   What one operation can do to an entry: leave it, rename it under the same inode,
   drop it as the destination of a rename, or evict it, and then only as the least
   recently used entry of a full table.
   */
  lemma EntryFate(t: Table, op: Op, e: Entry)
    requires Inv(t) && e in t.lru
    ensures
      var t' := Perform(t, op);
      || e in t'.lru
      || (op.RenameOp? && e.path == op.source && Entry(e.ino, op.target) in t'.lru)
      || (op.RenameOp? && e.path == op.target && !HasIno(t', e.ino))
      || (|t.lru| == t.cap && e == t.lru[0] && t'.nextIno == t.nextIno + 1)
  {
    match op {
      case RenameOp(source, target) =>
        if source !in t.dirs && Renamed(t, source, target).1.Some? {
          RenameFate(t, source, target, e);
        }
      case ResolveOp(n) =>
        if n != ROOT_INO && InoAt(t.lru, n) < |t.lru| { TouchMembers(t.lru, InoAt(t.lru, n)); }
      case AllocOp(path) =>
        if PathAt(t.lru, path) < |t.lru| { TouchMembers(t.lru, PathAt(t.lru, path)); }
      case LookupOp(path, _) =>
        if PathAt(t.lru, path) < |t.lru| { TouchMembers(t.lru, PathAt(t.lru, path)); }
    }
  }

  lemma RenameFate(t: Table, source: string, target: string, e: Entry)
    requires Inv(t) && e in t.lru && Renamed(t, source, target).1.Some?
    ensures
      var t' := Renamed(t, source, target).0;
      || e in t'.lru
      || (e.path == source && Entry(e.ino, target) in t'.lru)
      || (e.path == target && !HasIno(t', e.ino))
  {
    var (t', ino) := Renamed(t, source, target);
    RenamedMembers(t, source, target);
    var j :| 0 <= j < |t.lru| && t.lru[j] == e;
    if e.ino == ino.value {
      assert e == Entry(ino.value, source);
    } else if e.path == target {
      HasInoMeans(t', e.ino);
      forall x: Entry | x in t'.lru ensures x.ino != e.ino {
        if x.ino != ino.value { OnlyOne(t.lru, x, e); }
      }
    }
  }

  // ---------------------------------------------------------------------
  // What the lookups answer
  // ---------------------------------------------------------------------

  /** The entry was used last. */
  ghost predicate UsedLast(lru: seq<Entry>, e: Entry) {
    lru != [] && lru[|lru| - 1] == e
  }

  /** An inode resolves to the path of its entry, which becomes the most recent, and to nothing else. */
  lemma PathForExactly(t: Table, ino: nat, path: string)
    requires Inv(t)
    ensures var (t', answer) := PathForIno(t, ino);
            && (answer == Some(path) <==> if ino == ROOT_INO then path == "/" else Entry(ino, path) in t.lru)
            && (answer == Some(path) && ino != ROOT_INO ==> UsedLast(t'.lru, Entry(ino, path)))
            && (forall e :: e in t'.lru <==> e in t.lru) && t' == t.(lru := t'.lru)
  {
    var i := InoAt(t.lru, ino);
    if i < |t.lru| {
      TouchMembers(t.lru, i);
      assert t.lru[i] == Entry(ino, t.lru[i].path) && t.lru[i] in t.lru;
      if Entry(ino, path) in t.lru { OnlyOne(t.lru, t.lru[i], Entry(ino, path)); }
    }
  }

  /** A path gets the inode it has, or a new one; either way it then has it, as the most recent entry. */
  lemma InoForExactly(t: Table, path: string)
    requires Inv(t)
    ensures var (t', ino) := InoForPath(t, path);
            if path == "/" then t' == t && ino == ROOT_INO
            else
              && UsedLast(t'.lru, Entry(ino, path))
              && (if Tracked(t, path) then Entry(ino, path) in t.lru && t'.nextIno == t.nextIno
                  else ino == t.nextIno < t'.nextIno)
  {
    var i := PathAt(t.lru, path);
    if i < |t.lru| {
      assert t.lru[i] == Entry(t.lru[i].ino, path) && t.lru[i] in t.lru;
    }
  }

  /** The root is inode 1, and the first other path of an empty table gets 2. */
  lemma FirstInodes(t: Table, cap: nat, path: string)
    requires t.cap > 0 && cap > 0
    ensures InoForPath(t, "/").1 == 1 && PathForIno(t, 1).1 == Some("/")
    ensures path != "/" ==> InoForPath(Empty(cap), path).1 == 2
  {
  }

  /** A rename answers the inode of the old path, which then belongs to the new one, as the most recent entry. */
  lemma RenameAnswers(t: Table, source: string, target: string)
    requires Inv(t)
    ensures var (t', ino) := Renamed(t, source, target);
            if source == "/" || target == "/" || !Tracked(t, source) then t' == t && ino == None
            else
              && ino.Some? && Entry(ino.value, source) in t.lru && UsedLast(t'.lru, Entry(ino.value, target))
              && (source != target ==> !Tracked(t', source))
  {
    var i := PathAt(t.lru, source);
    var (t', ino) := Renamed(t, source, target);
    if i < |t.lru| {
      assert t.lru[i] == Entry(t.lru[i].ino, source) && t.lru[i] in t.lru;
    }
    if ino.Some? {
      RenamedMembers(t, source, target);
      forall e | e in t'.lru && source != target ensures e.path != source {
        if e.ino == ino.value {
          OnlyOne(t'.lru, e, Entry(ino.value, target));
        } else if e.path == source {
          OnlyOne(t.lru, e, Entry(ino.value, source));
        }
      }
    }
  }

  /** In a run a rename of anything but a directory has that effect. */
  lemma RenamesTakeEffect(t: Table, source: string, target: string)
    requires Inv(t) && source !in t.dirs && source != "/" && target != "/"
    ensures var t' := Perform(t, RenameOp(source, target));
            forall ino | Entry(ino, source) in t.lru :: Entry(ino, target) in t'.lru
  {
    RenameAnswers(t, source, target);
    forall ino | Entry(ino, source) in t.lru
      ensures Entry(ino, target) in Perform(t, RenameOp(source, target)).lru
    {
      OnlyOne(t.lru, Entry(ino, source), Entry(Renamed(t, source, target).1.value, source));
    }
  }

  /** A looked-up directory is noted, so that a rename of it is refused. */
  lemma DirectoriesAreNoted(t: Table, path: string, target: string)
    requires Inv(t) && path != "/"
    ensures var t' := Perform(t, LookupOp(path, true));
            path in t'.dirs && Perform(t', RenameOp(path, target)) == t'
  {
    var noted := t.(dirs := t.dirs + {path});
    if PathAt(t.lru, path) == |t.lru| && |t.lru| >= t.cap {
      assert t.lru[0].path != path;
    }
  }

  /** A note about a directory stays until its entry is evicted. */
  lemma NotesStay(t: Table, op: Op, d: string)
    requires Inv(t) && d in t.dirs
    ensures d in Perform(t, op).dirs || (|t.lru| == t.cap && d == t.lru[0].path && Perform(t, op).nextIno > t.nextIno)
  {
  }

  // ---------------------------------------------------------------------
  // How long an entry stays
  // ---------------------------------------------------------------------

  /** At most `n` entries were used after it. */
  ghost predicate Recent(lru: seq<Entry>, e: Entry, n: nat) {
    exists k :: 0 <= k < |lru| && lru[k] == e && |lru| - 1 - k <= n
  }

  lemma RecentAt(lru: seq<Entry>, e: Entry, n: nat, k: nat)
    requires k < |lru| && lru[k] == e && |lru| - 1 - k <= n
    ensures Recent(lru, e, n)
  {
  }

  lemma RecentWithout(lru: seq<Entry>, e: Entry, n: nat, i: nat)
    requires i < |lru| && Distinct(lru) && Recent(lru, e, n) && lru[i] != e
    ensures Recent(Without(lru, i), e, n)
  {
    var k :| 0 <= k < |lru| && lru[k] == e && |lru| - 1 - k <= n;
    RecentAt(Without(lru, i), e, n, if k < i then k else k - 1);
  }

  lemma RecentSnoc(lru: seq<Entry>, e: Entry, n: nat, last: Entry)
    requires Recent(lru, e, n)
    ensures Recent(lru + [last], e, n + 1)
  {
    var k :| 0 <= k < |lru| && lru[k] == e && |lru| - 1 - k <= n;
    RecentAt(lru + [last], e, n + 1, k);
  }

  lemma RecentTouch(lru: seq<Entry>, e: Entry, n: nat, i: nat)
    requires i < |lru| && Distinct(lru) && Recent(lru, e, n)
    ensures Recent(Touch(lru, i), e, n + 1)
  {
    if lru[i] == e {
      RecentAt(Touch(lru, i), e, n + 1, |lru| - 1);
    } else {
      RecentWithout(lru, e, n, i);
      RecentSnoc(Without(lru, i), e, n, lru[i]);
    }
  }

  lemma RecentInserted(t: Table, path: string, e: Entry, n: nat)
    requires Distinct(t.lru) && |t.lru| <= t.cap && Recent(t.lru, e, n) && n + 1 < t.cap
    ensures Recent(Inserted(t, path).lru, e, n + 1)
  {
    if |t.lru| >= t.cap {
      assert t.lru[0] != e by {
        var k :| 0 <= k < |t.lru| && t.lru[k] == e && |t.lru| - 1 - k <= n;
        assert k > 0;
      }
      RecentWithout(t.lru, e, n, 0);
      assert Without(t.lru, 0) == t.lru[1..];
      RecentSnoc(t.lru[1..], e, n, Entry(t.nextIno, path));
    } else {
      RecentSnoc(t.lru, e, n, Entry(t.nextIno, path));
    }
  }

  lemma RecentRenamed(t: Table, source: string, target: string, e: Entry, n: nat)
    requires Inv(t) && Recent(t.lru, e, n) && e.path != source && e.path != target
    ensures Recent(Renamed(t, source, target).0.lru, e, n + 1)
  {
    var i := PathAt(t.lru, source);
    if Renamed(t, source, target).1.Some? {
      var rest := Without(t.lru, i);
      RecentWithout(t.lru, e, n, i);
      WithoutMembers(t.lru, i);
      if PathAt(rest, target) < |rest| { RecentWithout(rest, e, n, PathAt(rest, target)); }
      RecentSnoc(Evicting(rest, target), e, n, Entry(t.lru[i].ino, target));
    } else {
      var k :| 0 <= k < |t.lru| && t.lru[k] == e && |t.lru| - 1 - k <= n;
      RecentAt(t.lru, e, n + 1, k);
    }
  }

  predicate RenamesPath(op: Op, path: string) {
    op.RenameOp? && (op.source == path || op.target == path)
  }

  lemma RecentKept(lru: seq<Entry>, e: Entry, n: nat)
    requires Recent(lru, e, n)
    ensures Recent(lru, e, n + 1)
  {
    var k :| 0 <= k < |lru| && lru[k] == e && |lru| - 1 - k <= n;
    RecentAt(lru, e, n + 1, k);
  }

  lemma RecentInoFor(t: Table, path: string, e: Entry, n: nat)
    requires Distinct(t.lru) && |t.lru| <= t.cap && Recent(t.lru, e, n) && n + 1 < t.cap
    ensures Recent(InoForPath(t, path).0.lru, e, n + 1)
  {
    RecentKept(t.lru, e, n);
    if PathAt(t.lru, path) < |t.lru| {
      RecentTouch(t.lru, e, n, PathAt(t.lru, path));
    } else {
      RecentInserted(t, path, e, n);
    }
  }

  lemma RecentPathFor(t: Table, ino: nat, e: Entry, n: nat)
    requires Distinct(t.lru) && Recent(t.lru, e, n)
    ensures Recent(PathForIno(t, ino).0.lru, e, n + 1)
  {
    RecentKept(t.lru, e, n);
    if InoAt(t.lru, ino) < |t.lru| { RecentTouch(t.lru, e, n, InoAt(t.lru, ino)); }
  }

  /** One operation uses at most one entry, so it pushes another one at most one place towards eviction. */
  lemma RecentStep(t: Table, op: Op, e: Entry, n: nat)
    requires Inv(t) && Recent(t.lru, e, n) && n + 1 < t.cap && !RenamesPath(op, e.path)
    ensures Recent(Perform(t, op).lru, e, n + 1)
  {
    RecentKept(t.lru, e, n);
    match op
    case RenameOp(source, target) => RecentRenamed(t, source, target, e, n);
    case ResolveOp(ino) => RecentPathFor(t, ino, e, n);
    case AllocOp(path) => RecentInoFor(t, path, e, n);
    case LookupOp(path, isDir) => RecentInoFor(if isDir then t.(dirs := t.dirs + {path}) else t, path, e, n);
  }

  lemma {:induction false} RecentRun(t: Table, ops: seq<Op>, e: Entry, n: nat)
    requires Inv(t) && Recent(t.lru, e, n) && n + |ops| < t.cap
    requires forall op | op in ops :: !RenamesPath(op, e.path)
    ensures Recent(Run(t, ops).lru, e, n + |ops|) && Inv(Run(t, ops))
    decreases |ops|
  {
    if ops != [] {
      assert ops[0] in ops && forall op | op in ops[1..] :: op in ops;
      RecentStep(t, ops[0], e, n);
      PerformOk(t, ops[0]);
      RecentRun(Perform(t, ops[0]), ops[1..], e, n + 1);
    }
  }

  /**
   An inode handed out for a path resolves to that path through any further operations, fewer than the table has
   places, that do not rename the path or rename something onto it.
   */
  lemma InodeResolves(t: Table, path: string, ops: seq<Op>)
    requires Inv(t) && path != "/" && |ops| < t.cap && forall op | op in ops :: !RenamesPath(op, path)
    ensures var (t', ino) := InoForPath(t, path);
            t'.cap == t.cap && PathForIno(Run(t', ops), ino).1 == Some(path)
  {
    var (t', ino) := InoForPath(t, path);
    InoForExactly(t, path);
    InoForPathOk(t, path);
    RecentAt(t'.lru, Entry(ino, path), 0, |t'.lru| - 1);
    RecentRun(t', ops, Entry(ino, path), 0);
    PathForExactly(Run(t', ops), ino, path);
    assert Entry(ino, path) in t'.lru;
  }

  /** And through any operations at all for as long as its entry is there. */
  lemma InodeResolvesExactly(t: Table, ops: seq<Op>, ino: nat, path: string)
    requires Inv(t) && ino != ROOT_INO
    ensures PathForIno(Run(t, ops), ino).1 == Some(path) <==> Entry(ino, path) in Run(t, ops).lru
  {
    NeverReused(t, ops, ino);
    PathForExactly(Run(t, ops), ino, path);
  }

  // ---------------------------------------------------------------------
  // The table with its index
  // ---------------------------------------------------------------------

  /** The index holds exactly the entries of the list. */
  ghost predicate Indexes(index: map<string, nat>, lru: seq<Entry>) {
    forall p, n :: (p in index && index[p] == n) <==> Entry(n, p) in lru
  }

  lemma IndexFinds(index: map<string, nat>, t: Table, path: string)
    requires ListOk(t) && Indexes(index, t.lru)
    ensures path in index <==> PathAt(t.lru, path) < |t.lru|
    ensures path in index ==>
              && t.lru[PathAt(t.lru, path)].ino == index[path]
              && InoAt(t.lru, index[path]) == PathAt(t.lru, path)
  {
    var i := PathAt(t.lru, path);
    if path in index {
      assert Entry(index[path], path) in t.lru;
      var j :| 0 <= j < |t.lru| && t.lru[j] == Entry(index[path], path);
    }
    if i < |t.lru| {
      assert Entry(t.lru[i].ino, path) == t.lru[i] && t.lru[i] in t.lru;
      assert path in index && index[path] == t.lru[i].ino;
    }
  }

  lemma AtUnique(lru: seq<Entry>, k: nat)
    requires Distinct(lru) && k < |lru|
    ensures PathAt(lru, lru[k].path) == k && InoAt(lru, lru[k].ino) == k
  {
  }

  /** Where position `k` moves to when position `gone` is removed. */
  function Shifted(k: nat, gone: nat): nat
    requires k != gone
  {
    if k < gone then k else k - 1
  }

  lemma WithoutAt(lru: seq<Entry>, i: nat, k: nat)
    requires i < |lru| && k < |lru| - 1
    ensures Without(lru, i)[k] == lru[if k < i then k else k + 1]
  {
  }

  lemma ShiftedAt(lru: seq<Entry>, i: nat, j: nat)
    requires Distinct(lru) && i < |lru| && j < |lru| && i != j
    ensures Without(lru, j)[Shifted(i, j)] == lru[i]
    ensures InoAt(Without(lru, j), lru[i].ino) == PathAt(Without(lru, j), lru[i].path) == Shifted(i, j)
  {
    WithoutMembers(lru, j);
    WithoutAt(lru, j, Shifted(i, j));
    AtUnique(Without(lru, j), Shifted(i, j));
  }

  /** Removing the destination before the source, as the code does, or after it, makes no difference. */
  lemma RemoveEitherFirst(lru: seq<Entry>, i: nat, j: nat)
    requires i < |lru| && j < |lru| && i != j
    ensures Without(Without(lru, j), Shifted(i, j)) == Without(Without(lru, i), Shifted(j, i))
  {
    if i < j {
      assert Without(Without(lru, j), i) == lru[..i] + lru[i + 1..j] + lru[j + 1..];
      assert Without(Without(lru, i), j - 1) == lru[..i] + lru[i + 1..j] + lru[j + 1..];
    } else {
      assert Without(Without(lru, j), i - 1) == lru[..j] + lru[j + 1..i] + lru[i + 1..];
      assert Without(Without(lru, i), j) == lru[..j] + lru[j + 1..i] + lru[i + 1..];
    }
  }

  /** The list after a rename, computed in the order of the code. */
  lemma RenamedList(t: Table, source: string, target: string)
    requires Inv(t) && Renamed(t, source, target).1.Some? && source != target && PathAt(t.lru, target) < |t.lru|
    ensures var i, j := PathAt(t.lru, source), PathAt(t.lru, target);
            var ino := t.lru[i].ino;
            var fewer := Without(t.lru, j);
            && InoAt(fewer, ino) < |fewer|
            && Renamed(t, source, target).0.lru == Without(fewer, InoAt(fewer, ino)) + [Entry(ino, target)]
  {
    var i, j := PathAt(t.lru, source), PathAt(t.lru, target);
    ShiftedAt(t.lru, i, j);
    ShiftedAt(t.lru, j, i);
    RemoveEitherFirst(t.lru, i, j);
  }

  /** The index after an insertion; an evicted entry is one the index knows, and not the new one. */
  lemma IndexAfterInsert(index: map<string, nat>, t: Table, path: string)
    requires InvBut(t, path) && Indexes(index, t.lru) && path !in index
    ensures var after := index[path := t.nextIno];
            if |t.lru| >= t.cap then
              var e := t.lru[0];
              && e.path in after && after[e.path] == e.ino && e.ino != t.nextIno
              && Indexes(after - {e.path}, Inserted(t, path).lru)
            else Indexes(after, Inserted(t, path).lru)
  {
    var after, added := index[path := t.nextIno], Entry(t.nextIno, path);
    if |t.lru| >= t.cap {
      var e, rest := t.lru[0], t.lru[1..];
      WithoutMembers(t.lru, 0);
      assert Without(t.lru, 0) == rest && e in t.lru;
      forall p, n ensures (p in after - {e.path} && after[p] == n) <==> Entry(n, p) in rest + [added] {
        AfterInsertAt(index, t, path, p, n);
      }
    }
  }

  lemma AfterInsertAt(index: map<string, nat>, t: Table, path: string, p: string, n: nat)
    requires InvBut(t, path) && Indexes(index, t.lru) && path !in index && |t.lru| >= t.cap
    requires forall e :: e in t.lru[1..] <==> e in t.lru && e != t.lru[0]
    ensures (p in index[path := t.nextIno] - {t.lru[0].path} && index[path := t.nextIno][p] == n)
            <==> Entry(n, p) in t.lru[1..] + [Entry(t.nextIno, path)]
  {
    var e, x, added := t.lru[0], Entry(n, p), Entry(t.nextIno, path);
    assert e in t.lru && e.path in index;
    assert x in t.lru[1..] + [added] <==> x in t.lru[1..] || x == added;
    assert x in t.lru <==> p in index && index[p] == n;
    if x in t.lru { OnlyOne(t.lru, x, e); }
  }

  lemma IndexAfterRename(index: map<string, nat>, t: Table, source: string, target: string)
    requires Inv(t) && Indexes(index, t.lru) && source in index && Renamed(t, source, target).1 == Some(index[source])
    ensures Indexes((index - {source} - {target})[target := index[source]], Renamed(t, source, target).0.lru)
  {
    RenamedMembers(t, source, target);
    IndexMoves(index, t.lru, Renamed(t, source, target).0.lru, source, target);
  }

  lemma IndexMoves(index: map<string, nat>, lru: seq<Entry>, lru': seq<Entry>, source: string, target: string)
    requires Distinct(lru) && Distinct(lru') && Indexes(index, lru) && source in index
    requires Entry(index[source], source) in lru && Entry(index[source], target) in lru'
    requires forall e: Entry | e.ino != index[source] :: e in lru' <==> e in lru && e.path != target
    ensures Indexes((index - {source} - {target})[target := index[source]], lru')
  {
    var ino := index[source];
    var after := (index - {source} - {target})[target := ino];
    forall p, n ensures (p in after && after[p] == n) <==> Entry(n, p) in lru' {
      var e := Entry(n, p);
      if e in lru' { OnlyOne(lru', e, Entry(ino, target)); }
      if e in lru { OnlyOne(lru, e, Entry(ino, source)); }
    }
  }

  lemma NoOtherTarget(index: map<string, nat>, t: Table, source: string, target: string)
    requires Inv(t) && Indexes(index, t.lru) && source in index && target !in index - {source}
    ensures PathAt(t.lru, source) < |t.lru|
    ensures Evicting(Without(t.lru, PathAt(t.lru, source)), target) == Without(t.lru, PathAt(t.lru, source))
  {
    IndexFinds(index, t, source);
    var i := PathAt(t.lru, source);
    var rest := Without(t.lru, i);
    WithoutMembers(t.lru, i);
    var k := PathAt(rest, target);
    if k < |rest| {
      assert rest[k] in rest && rest[k] in t.lru && rest[k] == Entry(rest[k].ino, target);
      OnlyOne(t.lru, rest[k], t.lru[i]);
    }
  }

  lemma IndexSurvivesTouch(index: map<string, nat>, t: Table, i: nat)
    requires ListOk(t) && Indexes(index, t.lru) && i < |t.lru|
    ensures Indexes(index, Touch(t.lru, i))
  {
    TouchMembers(t.lru, i);
  }

  class InodeTable {
    const cap: nat
    var nextIno: nat
    var pathByIno: seq<Entry>
    var inoByPath: map<string, nat>
    var dirs: set<string>

    constructor (cap: nat)
      requires cap > 0
      ensures Valid() && State() == Empty(cap)
    {
      this.cap := cap;
      nextIno, pathByIno, inoByPath, dirs := 2, [], map[], {};
    }

    function State(): Table
      reads this
    {
      Table(cap, nextIno, pathByIno, dirs)
    }

    ghost predicate Valid()
      reads this
    {
      Inv(State()) && Indexes(inoByPath, pathByIno)
    }

    method TrackDir(path: string)
      modifies `dirs
      ensures dirs == old(dirs) + {path}
    {
      dirs := dirs + {path};
    }

    /** Also called with the path just noted as a directory. */
    method InoFor(path: string) returns (ino: nat)
      requires InvBut(State(), path) && Indexes(inoByPath, pathByIno) && (path == "/" ==> Valid())
      modifies this
      ensures Valid() && (State(), ino) == InoForPath(old(State()), path)
    {
      InoForPathOk(State(), path);
      if path == "/" {
        return ROOT_INO;
      }
      IndexFinds(inoByPath, State(), path);
      if path in inoByPath {
        ino := inoByPath[path];
        var i := InoAt(pathByIno, ino);
        IndexSurvivesTouch(inoByPath, State(), i);
        pathByIno := Touch(pathByIno, i);
        return;
      }
      ino := nextIno;
      nextIno := nextIno + 1;
      Insert(ino, path, old(State()));
    }

    /** Add the pair, then drop what the full list pushed out from the other two collections. */
    method Insert(ino: nat, path: string, ghost before: Table)
      requires InvBut(before, path) && path != "/" && path !in inoByPath && Indexes(inoByPath, pathByIno)
      requires State() == before.(nextIno := ino + 1) && before.nextIno == ino
      modifies `pathByIno, `inoByPath, `dirs
      ensures Valid() && State() == Inserted(before, path)
    {
      IndexFinds(inoByPath, before, path);
      InsertedOk(before, path);
      IndexAfterInsert(inoByPath, before, path);
      inoByPath := inoByPath[path := ino];
      var evicted := PushEntry(Entry(ino, path));
      if evicted.Some? {
        var e := evicted.value;
        if e.ino != ino && e.path in inoByPath && inoByPath[e.path] == e.ino {
          inoByPath := inoByPath - {e.path};
          dirs := dirs - {e.path};
        }
      }
    }

    /** The list's own insertion: the pair displaced from a full list, if any. */
    method PushEntry(e: Entry) returns (evicted: Option<Entry>)
      requires cap > 0
      modifies `pathByIno
      ensures evicted == if |old(pathByIno)| >= cap then Some(old(pathByIno)[0]) else None
      ensures pathByIno == (if |old(pathByIno)| >= cap then old(pathByIno)[1..] else old(pathByIno)) + [e]
    {
      evicted := None;
      if |pathByIno| >= cap {
        evicted := Some(pathByIno[0]);
        pathByIno := pathByIno[1..];
      }
      pathByIno := pathByIno + [e];
    }

    method PathFor(ino: nat) returns (path: Option<string>)
      requires Valid()
      modifies `pathByIno
      ensures Valid() && (State(), path) == PathForIno(old(State()), ino)
    {
      PerformOk(State(), ResolveOp(ino));
      if ino == ROOT_INO {
        return Some("/");
      }
      var i := InoAt(pathByIno, ino);
      if i == |pathByIno| {
        return None;
      }
      IndexSurvivesTouch(inoByPath, State(), i);
      path := Some(pathByIno[i].path);
      pathByIno := Touch(pathByIno, i);
    }

    /** The table's part of a lookup the host answered. */
    method Lookup(path: string, isDir: bool) returns (ino: nat)
      requires Valid() && path != "/"
      modifies this
      ensures Valid() && (State(), ino) == Looked(old(State()), path, isDir)
    {
      if isDir {
        TrackDir(path);
      }
      ino := InoFor(path);
    }

    /** The table's part of a rename, whose caller has refused directories. */
    method RenamePath(source: string, target: string) returns (ino: Option<nat>)
      requires Valid() && source !in dirs
      modifies `pathByIno, `inoByPath
      ensures Valid() && (State(), ino) == Renamed(old(State()), source, target)
    {
      ghost var before, index := State(), inoByPath;
      RenamedOk(before, source, target);
      IndexFinds(index, before, source);
      if source == "/" || target == "/" || source !in inoByPath {
        return None;
      }
      IndexFinds(index, before, target);
      IndexAfterRename(index, before, source, target);
      var n := inoByPath[source];
      inoByPath := inoByPath - {source};
      if target in inoByPath {
        RenamedList(before, source, target);
        var destination := inoByPath[target];
        pathByIno := Without(pathByIno, InoAt(pathByIno, destination));
      } else {
        NoOtherTarget(index, before, source, target);
      }
      inoByPath := inoByPath - {target};
      inoByPath := inoByPath[target := n];
      pathByIno := Without(pathByIno, InoAt(pathByIno, n)) + [Entry(n, target)];
      ino := Some(n);
    }
  }
}
