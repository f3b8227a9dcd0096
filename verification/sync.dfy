/**
 The synchroniser itself: a source tree, a replica tree and the debug log, and
 the pass that walks both trees and changes the replica in place. The
 operating-system calls the pass makes (os.remove, shutil.rmtree, shutil.copy2,
 shutil.copytree) are methods that change one replica entry each; their
 preconditions are the situations in which the real call would not raise.
 */
module Sync {
  import opened FsTree
  import opened DirCmp
  import opened SyncSpec
  import opened SyncSteps

  class FileSystem {
    var source: Node
    var replica: Node
    var log: seq<Record>

    constructor (source: Node, replica: Node)
      ensures this.source == source && this.replica == replica && log == []
    {
      this.source := source;
      this.replica := replica;
      log := [];
    }

    /** os.remove on the replica path dir/name: only a plain file can be removed. */
    method Remove(dir: Path, name: Name)
      requires IsFileAt(replica, dir, name)
      modifies this
      ensures source == old(source) && log == old(log)
      ensures replica == Put(old(replica), dir, Dir(EntriesAt(old(replica), dir) - {name}))
    {
      replica := Put(replica, dir, Dir(EntriesAt(replica, dir) - {name}));
    }

    /**
     shutil.rmtree on the replica path dir/name with ignore_errors=True: a
     directory goes with everything below it; on a file or a missing name the
     error is swallowed and nothing changes.
     */
    method RmTree(dir: Path, name: Name)
      requires IsDirAt(replica, dir)
      modifies this
      ensures source == old(source) && log == old(log)
      ensures var e := EntriesAt(old(replica), dir);
              replica == Put(old(replica), dir, Dir(if name in e && e[name].File? then e else e - {name}))
    {
      var e := EntriesAt(replica, dir);
      if name in e && e[name].Dir? {
        replica := Put(replica, dir, Dir(e - {name}));
      } else {
        assert (if name in e && e[name].File? then e else e - {name}) == e;
        PutGet(replica, dir);
      }
    }

    /**
     shutil.copy2 of the source file dir/name into the replica directory dir:
     it lands under the same name, replacing a file already there (copying onto
     a directory would raise).
     */
    method Copy2(dir: Path, name: Name)
      requires IsFileAt(source, dir, name)
      requires IsDirAt(replica, dir)
      requires name in EntriesAt(replica, dir) ==> EntriesAt(replica, dir)[name].File?
      modifies this
      ensures source == old(source) && log == old(log)
      ensures replica == Put(old(replica), dir, Dir(EntriesAt(old(replica), dir)[name := EntriesAt(source, dir)[name]]))
    {
      replica := Put(replica, dir, Dir(EntriesAt(replica, dir)[name := EntriesAt(source, dir)[name]]));
    }

    /** shutil.copytree of the source directory dir/name to the replica path dir/name, which must not exist yet. */
    method CopyTree(dir: Path, name: Name)
      requires IsDirAt(source, dir) && name in EntriesAt(source, dir) && EntriesAt(source, dir)[name].Dir?
      requires IsDirAt(replica, dir) && name !in EntriesAt(replica, dir)
      modifies this
      ensures source == old(source) && log == old(log)
      ensures replica == Put(old(replica), dir, Dir(EntriesAt(old(replica), dir)[name := EntriesAt(source, dir)[name]]))
    {
      replica := Put(replica, dir, Dir(EntriesAt(replica, dir)[name := EntriesAt(source, dir)[name]]));
    }

    /**
     One name of delete_leftover: a file goes with os.remove, anything else with
     rmtree; either way the name is gone afterwards, and a deletion is logged.
     */
    method DeleteEntry(p: Path, x: Name)
      requires IsDirAt(replica, p)
      modifies this
      ensures source == old(source)
      ensures replica == Put(old(replica), p, Dir(EntriesAt(old(replica), p) - {x}))
      ensures log == old(log) + [Deleted(p, x)]
    {
      if !IsFileAt(replica, p, x) {
        RmTree(p, x);
      } else {
        Remove(p, x);
      }
      log := log + [Deleted(p, x)];
    }

    /**
     delete_leftover: removes from the replica directory `p` every name the
     comparison found only in the replica, a file with os.remove and anything
     else with rmtree, logging one deletion per name.
     */
    method DeleteLeftover(p: Path, d: DirDiff) returns (ghost added: seq<Record>)
      requires IsDirAt(replica, p)
      modifies this
      ensures source == old(source)
      ensures replica == Put(old(replica), p, Dir(EntriesAt(old(replica), p) - d.rightOnly))
      ensures IsDirAt(replica, p) && forall n :: n in d.rightOnly ==> n !in EntriesAt(replica, p)
      ensures forall n :: n in EntriesAt(old(replica), p) && n !in d.rightOnly ==>
                n in EntriesAt(replica, p) && EntriesAt(replica, p)[n] == EntriesAt(old(replica), p)[n]
      ensures log == old(log) + added
      ensures multiset(added) == multiset(DeleteActions(p, d.rightOnly))
    {
      ghost var e0 := EntriesAt(replica, p);
      ghost var r0 := replica;
      ghost var log0 := log;
      added := [];
      ghost var done: set<Name> := {};
      PutGet(replica, p);
      assert Get(r0, p).value == Dir(e0 - done);
      if d.rightOnly != {} {
        var todo := d.rightOnly;
        while todo != {}
          invariant todo !! done && todo + done == d.rightOnly
          invariant source == old(source)
          invariant replica == Put(r0, p, Dir(e0 - done))
          invariant log == log0 + added
          invariant multiset(added) == multiset(DeleteActions(p, done))
          decreases todo
        {
          var x :| x in todo;
          ghost var prev := replica;
          ListingAfterPut(r0, p, e0 - done, prev);
          DeleteEntry(p, x);
          LevelStep(r0, p, e0 - done, prev, replica, (e0 - done) - {x});
          MapMinusStep(e0, done, x);
          DeleteActionsAdd(p, done, x);
          SplitStep(todo, done, d.rightOnly, x);
          LogStep(log0, added, DeleteActions(p, done), Deleted(p, x));
          added := added + [Deleted(p, x)];
          todo := todo - {x};
          done := done + {x};
        }
      }
      assert done == d.rightOnly;
    }

    /**
     One name of copy_new: a source file is copied with copy2; a source
     directory is copied with copytree, after os.remove has cleared a file of
     the same name from the replica; a name missing from the source is passed
     over. The record it logs says which kind was copied.
     */
    method CopyEntry(p: Path, x: Name)
      requires IsDirAt(source, p) && IsDirAt(replica, p)
      requires x in EntriesAt(source, p) && x in EntriesAt(replica, p) ==> EntriesAt(replica, p)[x].File?
      modifies this
      ensures source == old(source)
      ensures x in EntriesAt(source, p) ==>
                && replica == Put(old(replica), p, Dir(EntriesAt(old(replica), p)[x := EntriesAt(source, p)[x]]))
                && log == old(log) + [if EntriesAt(source, p)[x].File? then FileCopied(p, x) else DirCopied(p, x)]
      ensures x !in EntriesAt(source, p) ==> replica == old(replica) && log == old(log)
    {
      if IsFileAt(source, p, x) {
        Copy2(p, x);
        log := log + [FileCopied(p, x)];
      } else if x in EntriesAt(source, p) {
        ghost var e := EntriesAt(replica, p);
        ghost var r0 := replica;
        if x in EntriesAt(replica, p) {
          Remove(p, x);
        }
        assert replica == Put(r0, p, Dir(e - {x})) by {
          if x !in e {
            assert e - {x} == e;
            PutGet(r0, p);
          }
        }
        CopyTree(p, x);
        PutPut(r0, p, Dir(e - {x}), Dir((e - {x})[x := EntriesAt(source, p)[x]]));
        assert (e - {x})[x := EntriesAt(source, p)[x]] == e[x := EntriesAt(source, p)[x]];
        log := log + [DirCopied(p, x)];
      }
    }

    /**
     copy_new: installs in the replica directory `p` every name the comparison
     found only in the source, logging one creation per name; names the source
     does not have are passed over.
     */
    method CopyNew(p: Path, d: DirDiff) returns (ghost added: seq<Record>)
      requires IsDirAt(source, p) && IsDirAt(replica, p)
      requires forall n :: n in d.leftOnly && n in EntriesAt(source, p) && n in EntriesAt(replica, p) ==>
                 EntriesAt(replica, p)[n].File?
      modifies this
      ensures source == old(source)
      ensures replica == Put(old(replica), p, Dir(Install(EntriesAt(source, p), EntriesAt(old(replica), p), d.leftOnly * EntriesAt(source, p).Keys)))
      ensures IsDirAt(replica, p) && forall n :: n in d.leftOnly && n in EntriesAt(source, p) ==>
                n in EntriesAt(replica, p) && EntriesAt(replica, p)[n] == EntriesAt(source, p)[n]
      ensures forall n :: n in EntriesAt(old(replica), p) && (n !in d.leftOnly || n !in EntriesAt(source, p)) ==>
                n in EntriesAt(replica, p) && EntriesAt(replica, p)[n] == EntriesAt(old(replica), p)[n]
      ensures log == old(log) + added
      ensures multiset(added) == multiset(CopyActions(p, EntriesAt(source, p), d.leftOnly * EntriesAt(source, p).Keys))
    {
      ghost var s := EntriesAt(source, p);
      ghost var e0 := EntriesAt(replica, p);
      ghost var r0 := replica;
      ghost var log0 := log;
      added := [];
      ghost var done: set<Name> := {};
      ghost var copied: set<Name> := {};
      PutGet(replica, p);
      InstallNone(s, e0);
      assert Get(r0, p).value == Dir(Install(s, e0, copied));
      if d.leftOnly != {} {
        var todo := d.leftOnly;
        while todo != {}
          invariant todo !! done && todo + done == d.leftOnly
          invariant copied == done * s.Keys
          invariant source == old(source)
          invariant replica == Put(r0, p, Dir(Install(s, e0, copied)))
          invariant log == log0 + added
          invariant multiset(added) == multiset(CopyActions(p, s, copied))
          decreases todo
        {
          var x :| x in todo;
          ghost var prev := replica;
          ListingAfterPut(r0, p, Install(s, e0, copied), prev);
          InstallKeeps(s, e0, copied, x);
          CopyEntry(p, x);
          SplitStep(todo, done, d.leftOnly, x);
          IntersectStep(done, s.Keys, x);
          if x in s {
            InstallLevelStep(r0, p, s, e0, copied, x, prev, replica);
            ghost var rec := if s[x].File? then FileCopied(p, x) else DirCopied(p, x);
            CopyActionsAdd(p, s, copied, x);
            LogStep(log0, added, CopyActions(p, s, copied), rec);
            added := added + [rec];
            copied := copied + {x};
          }
          todo := todo - {x};
          done := done + {x};
        }
      }
      assert copied == d.leftOnly * s.Keys;
    }

    /** One differing file of check_difs: copy2 overwrites the replica's file, and an update is logged. */
    method SyncFile(p: Path, x: Name)
      requires IsFileAt(source, p, x)
      requires IsDirAt(replica, p)
      requires x in EntriesAt(replica, p) ==> EntriesAt(replica, p)[x].File?
      modifies this
      ensures source == old(source)
      ensures replica == Put(old(replica), p, Dir(EntriesAt(old(replica), p)[x := EntriesAt(source, p)[x]]))
      ensures log == old(log) + [Synced(p, x)]
    {
      Copy2(p, x);
      log := log + [Synced(p, x)];
    }

    /**
     The loop of check_difs over the differing files: each is overwritten in
     the replica directory `p` by its source file with copy2, and an update is
     logged for it.
     */
    method SyncDiffering(p: Path, names: set<Name>) returns (ghost added: seq<Record>)
      requires IsDirAt(source, p) && IsDirAt(replica, p)
      requires names <= EntriesAt(source, p).Keys && forall n :: n in names ==> EntriesAt(source, p)[n].File?
      requires forall n :: n in names && n in EntriesAt(replica, p) ==> EntriesAt(replica, p)[n].File?
      modifies this
      ensures source == old(source)
      ensures replica == Put(old(replica), p, Dir(Install(EntriesAt(source, p), EntriesAt(old(replica), p), names)))
      ensures IsDirAt(replica, p) && forall n :: n in names ==> n in EntriesAt(replica, p) && EntriesAt(replica, p)[n] == EntriesAt(source, p)[n]
      ensures forall n :: n in EntriesAt(old(replica), p) && n !in names ==>
                n in EntriesAt(replica, p) && EntriesAt(replica, p)[n] == EntriesAt(old(replica), p)[n]
      ensures log == old(log) + added
      ensures multiset(added) == multiset(SyncActions(p, names))
    {
      ghost var s := EntriesAt(source, p);
      ghost var e0 := EntriesAt(replica, p);
      ghost var r0 := replica;
      ghost var log0 := log;
      added := [];
      ghost var done: set<Name> := {};
      PutGet(replica, p);
      InstallNone(s, e0);
      assert Get(r0, p).value == Dir(Install(s, e0, done));
      var todo := names;
      while todo != {}
        invariant todo !! done && todo + done == names
        invariant source == old(source)
        invariant replica == Put(r0, p, Dir(Install(s, e0, done)))
        invariant log == log0 + added
        invariant multiset(added) == multiset(SyncActions(p, done))
        decreases todo
      {
        var x :| x in todo;
        ghost var prev := replica;
        ListingAfterPut(r0, p, Install(s, e0, done), prev);
        InstallKeeps(s, e0, done, x);
        SyncFile(p, x);
        InstallLevelStep(r0, p, s, e0, done, x, prev, replica);
        SyncActionsAdd(p, done, x);
        SplitStep(todo, done, names, x);
        LogStep(log0, added, SyncActions(p, done), Synced(p, x));
        added := added + [Synced(p, x)];
        todo := todo - {x};
        done := done + {x};
      }
    }

    /**
     The loop of check_difs over the common subdirectories `names` of the
     replica directory `p`: each is compared anew and passed to check_difs,
     which finishes before the next one starts.
     */
    method CheckSubdirs(same: Comparator, p: Path, names: set<Name>) returns (ghost added: seq<Record>)
      requires IsDirAt(source, p) && IsDirAt(replica, p)
      requires names <= EntriesAt(source, p).Keys && names <= EntriesAt(replica, p).Keys
      requires forall n :: n in names ==> EntriesAt(source, p)[n].Dir? && EntriesAt(replica, p)[n].Dir?
      modifies this
      decreases Get(source, p).value, 0
      ensures source == old(source)
      ensures replica == Put(old(replica), p, Dir(Descend(same, EntriesAt(source, p), EntriesAt(old(replica), p), names)))
      ensures log == old(log) + added
      ensures multiset(added) == multiset(SubdirActions(same, p, EntriesAt(source, p), EntriesAt(old(replica), p), names))
      ensures InOrder(added) && DepthFirst(added)
    {
      ghost var s := EntriesAt(source, p);
      ghost var e0 := EntriesAt(replica, p);
      ghost var r0 := replica;
      ghost var log0 := log;
      added := [];
      ghost var done: set<Name> := {};
      PutGet(replica, p);
      DescendNone(same, s, e0);
      assert Get(r0, p).value == Dir(Descend(same, s, e0, done));
      var todo := names;
      while todo != {}
        invariant todo !! done && todo + done == names
        invariant source == old(source)
        invariant replica == Put(r0, p, Dir(Descend(same, s, e0, done)))
        invariant log == log0 + added
        invariant multiset(added) == multiset(SubdirActions(same, p, s, e0, done)) && InOrder(added)
        invariant DepthFirst(added)
        decreases todo
      {
        var n :| n in todo;
        ghost var prev := replica;
        ghost var cur := Descend(same, s, e0, done);
        DescendStep(same, s, e0, done, n);
        ListingAfterPut(r0, p, cur, prev);
        PutChild(prev, p, n, e0[n]);
        PutChild(source, p, n, s[n]);
        var sub := Compare(same, EntriesAt(source, p + [n]), EntriesAt(replica, p + [n]));
        ghost var child := CheckDifs(same, p + [n], sub);
        ChildLevelStep(r0, p, cur, n, prev, replica, Dir(Reconcile(same, s[n].entries, e0[n].entries)));
        AppendLog(log0, added, child);
        SubdirLogStep(same, p, s, e0, done, n, added, child);
        SplitStep(todo, done, names, n);
        added := added + child;
        todo := todo - {n};
        done := done + {n};
      }
    }

    /**
     check_difs: one pass over the replica directory `p`, given the comparison
     `d` of its listing with the source's. Leftovers are deleted, new entries
     copied, differing files overwritten and then every common subdirectory
     gets its own pass; the replica ends as Reconcile says and the log holds
     exactly the pass's records, in phase order and depth-first.
     */
    method CheckDifs(same: Comparator, p: Path, d: DirDiff) returns (ghost added: seq<Record>)
      requires IsDirAt(source, p) && IsDirAt(replica, p)
      requires d == Compare(same, EntriesAt(source, p), EntriesAt(replica, p))
      modifies this
      decreases Get(source, p).value, 1
      ensures source == old(source)
      ensures replica == Put(old(replica), p, Dir(Reconcile(same, EntriesAt(source, p), EntriesAt(old(replica), p))))
      ensures log == old(log) + added
      ensures multiset(added) == multiset(Actions(same, p, EntriesAt(source, p), EntriesAt(old(replica), p)))
      ensures InOrder(added) && DepthFirst(added)
    {
      ghost var s := EntriesAt(source, p);
      ghost var e0 := EntriesAt(replica, p);
      ghost var r0 := replica;
      ghost var log0 := log;
      ghost var m0 := e0 - d.rightOnly;
      ghost var m1 := Install(s, m0, d.leftOnly);
      ghost var m2 := Install(s, m1, d.diffFiles);
      LevelFacts(same, s, e0, m0, m1, m2);

      ghost var dl := DeleteLeftover(p, d);
      ghost var r1 := replica;
      ghost var cl := CopyNew(p, d);
      LevelStep(r0, p, m0, r1, replica, m1);
      ListingAfterPut(r0, p, m1, replica);
      AppendLog(log0, dl, cl);

      if d.diffFiles != {} || d.subdirs != {} {
        ghost var r2 := replica;
        ghost var sl := SyncDiffering(p, d.diffFiles);
        LevelStep(r0, p, m1, r2, replica, m2);
        ListingAfterPut(r0, p, m2, replica);
        AppendLog(log0, dl + cl, sl);

        ghost var r3 := replica;
        ghost var sub := CheckSubdirs(same, p, d.subdirs);
        LevelStep(r0, p, m2, r3, replica, Reconcile(same, s, e0));
        AppendLog(log0, dl + cl + sl, sub);
        FullPassLog(same, p, s, e0, m0, m1, m2, dl, cl, sl, sub);
        added := dl + cl + sl + sub;
      } else {
        LevelEndsEarly(same, p, s, e0, m1, dl, cl);
        added := dl + cl;
      }
    }

    /**
     sync_dirs: compares the two roots and runs one pass from the top. The
     replica ends as the reconciliation of the two trees, the source is as it
     was, and the log gained exactly the pass's records, in order.
     */
    method SyncDirs(same: Comparator) returns (ghost added: seq<Record>)
      requires source.Dir? && replica.Dir?
      modifies this
      ensures source == old(source)
      ensures replica == Dir(Reconcile(same, source.entries, old(replica).entries))
      ensures log == old(log) + added
      ensures multiset(added) == multiset(Actions(same, [], source.entries, old(replica).entries))
      ensures InOrder(added) && DepthFirst(added)
      ensures forall n :: Mismatch(source.entries, old(replica).entries, n) ==> replica.entries[n] == old(replica).entries[n]
      ensures Reflexive(same) && SameKinds(source.entries, old(replica).entries) ==> Mirrors(same, source.entries, replica.entries)
      ensures Reflexive(same) ==> Actions(same, [], source.entries, replica.entries) == {}
      ensures Reflexive(same) ==> Reconcile(same, source.entries, replica.entries) == replica.entries
    {
      ghost var s := source.entries;
      ghost var r := replica.entries;
      var d := Compare(same, source.entries, replica.entries);
      added := CheckDifs(same, [], d);
      forall n | Mismatch(s, r, n) ensures replica.entries[n] == r[n] {
        KindMismatchKept(same, s, r, n);
      }
      if Reflexive(same) {
        if SameKinds(s, r) {
          Converges(same, s, r);
        }
        SecondPassQuiet(same, [], s, r);
        Idempotent(same, s, r);
      }
    }
  }
}
