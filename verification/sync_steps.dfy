/**
 Facts about one step of the synchroniser's loops: how the replica listing and
 the records logged so far move towards what the pass specification says once
 one more name is handled. The loops in module Sync call these between steps.
 */
module SyncSteps {
  import opened FsTree
  import opened DirCmp
  import opened SyncSpec

  /** Two successive rewrites of the directory listing at `p` amount to the second one. */
  lemma LevelStep(r0: Node, p: Path, e: map<Name, Node>, prev: Node, next: Node, e': map<Name, Node>)
    requires Get(r0, p).Some?
    requires prev == Put(r0, p, Dir(e))
    requires next == Put(prev, p, Dir(e'))
    ensures next == Put(r0, p, Dir(e'))
  {
    PutPut(r0, p, Dir(e), Dir(e'));
  }

  /** After the listing at `p` is rewritten to `e`, `p` is a directory listing `e`. */
  lemma ListingAfterPut(r0: Node, p: Path, e: map<Name, Node>, t: Node)
    requires Get(r0, p).Some?
    requires t == Put(r0, p, Dir(e))
    ensures IsDirAt(t, p) && EntriesAt(t, p) == e
  {
  }

  /** Installing one more source entry over the listing at `p` installed so far. */
  lemma InstallLevelStep(r0: Node, p: Path, s: map<Name, Node>, e0: map<Name, Node>, done: set<Name>, x: Name, prev: Node, next: Node)
    requires Get(r0, p).Some?
    requires done <= s.Keys && x in s
    requires prev == Put(r0, p, Dir(Install(s, e0, done)))
    requires next == Put(prev, p, Dir(Install(s, e0, done)[x := s[x]]))
    ensures next == Put(r0, p, Dir(Install(s, e0, done + {x})))
  {
    PutPut(r0, p, Dir(Install(s, e0, done)), Dir(Install(s, e0, done)[x := s[x]]));
    InstallStep(s, e0, done, x);
  }

  /** The names done that the source has, after one more name is done. */
  lemma IntersectStep<T>(done: set<T>, keys: set<T>, x: T)
    ensures (done + {x}) * keys == if x in keys then done * keys + {x} else done * keys
  {
  }

  /** A name not installed yet still has its original entry, or none. */
  lemma InstallKeeps(s: map<Name, Node>, r: map<Name, Node>, done: set<Name>, x: Name)
    requires done <= s.Keys && x !in done
    ensures x in Install(s, r, done) <==> x in r
    ensures x in r ==> Install(s, r, done)[x] == r[x]
  {
  }

  /**
   The listings a pass goes through at one level: `m0` after the deletions,
   `m1` after the creations, `m2` after the updates. Each loop finds the
   entries it works on as the comparison classified them.
   */
  lemma LevelFacts(same: Comparator, s: map<Name, Node>, e0: map<Name, Node>,
                   m0: map<Name, Node>, m1: map<Name, Node>, m2: map<Name, Node>)
    requires var d := Compare(same, s, e0);
             && m0 == e0 - d.rightOnly
             && m1 == Install(s, m0, d.leftOnly)
             && m2 == Install(s, m1, d.diffFiles)
    ensures var d := Compare(same, s, e0);
            && d.leftOnly * s.Keys == d.leftOnly
            && d.leftOnly !! m0.Keys
            && d.diffFiles <= s.Keys && (forall n :: n in d.diffFiles ==> s[n].File?)
            && (forall n :: n in d.diffFiles && n in m1 ==> m1[n].File?)
            && d.subdirs <= s.Keys && d.subdirs <= m2.Keys
            && (forall n :: n in d.subdirs ==> s[n].Dir? && m2[n].Dir? && m2[n] == e0[n])
  {
    var d := Compare(same, s, e0);
    forall n | n in d.diffFiles ensures n in m1 && m1[n] == e0[n] {
      InstallKeeps(s, m0, d.leftOnly, n);
    }
    forall n | n in d.subdirs ensures n in m2 && m2[n] == e0[n] {
      InstallKeeps(s, m0, d.leftOnly, n);
      InstallKeeps(s, m1, d.diffFiles, n);
    }
  }

  /**
   A level with no differing file and no common subdirectory is done once its
   deletions and creations are: the replica listing is then final and the
   records logged so far are all the pass's, in order.
   */
  lemma LevelEndsEarly(same: Comparator, p: Path, s: map<Name, Node>, e0: map<Name, Node>, m1: map<Name, Node>,
                       dl: seq<Record>, cl: seq<Record>)
    requires var d := Compare(same, s, e0);
             && m1 == Install(s, e0 - d.rightOnly, d.leftOnly)
             && d.diffFiles == {} && d.subdirs == {}
             && multiset(dl) == multiset(DeleteActions(p, d.rightOnly))
             && multiset(cl) == multiset(CopyActions(p, s, d.leftOnly))
    ensures Reconcile(same, s, e0) == m1
    ensures multiset(dl + cl) == multiset(Actions(same, p, s, e0))
    ensures InOrder(dl + cl) && DepthFirst(dl + cl)
  {
    var d := Compare(same, s, e0);
    InstallNone(s, m1);
    DescendNone(same, s, m1);
    EarlyLog(same, p, s, e0, dl, cl);
  }

  lemma EarlyLog(same: Comparator, p: Path, s: map<Name, Node>, e0: map<Name, Node>, dl: seq<Record>, cl: seq<Record>)
    requires var d := Compare(same, s, e0);
             && d.diffFiles == {} && d.subdirs == {}
             && multiset(dl) == multiset(DeleteActions(p, d.rightOnly))
             && multiset(cl) == multiset(CopyActions(p, s, d.leftOnly))
    ensures multiset(dl + cl) == multiset(Actions(same, p, s, e0))
    ensures InOrder(dl + cl) && DepthFirst(dl + cl)
  {
    var d := Compare(same, s, e0);
    ActionsSplit(same, p, s, e0);
    assert SyncActions(p, d.diffFiles) == {};
    assert SubdirActions(same, p, s, e0, d.subdirs) == {};
    assert multiset(dl + cl) == multiset(dl) + multiset(cl);
    LevelLogs(p, s, dl, d.rightOnly, cl, d.leftOnly, [], {});
    AtLevelInOrder(dl, p, 0);
    AtLevelInOrder(cl, p, 1);
    InOrderConcat(dl, cl);
    forall a | a in dl + cl ensures a.dir == p {
      assert a in dl || a in cl;
    }
    DepthFirstLevel(dl + cl, p);
  }

  /** Reconciling no subdirectory leaves the listing as it is. */
  lemma DescendNone(same: Comparator, s: map<Name, Node>, m: map<Name, Node>)
    ensures Descend(same, s, m, {}) == m
  {
  }

  /**
   One more common subdirectory reconciled: its entry is still the original
   one before, and is replaced by the reconciled copy after.
   */
  lemma DescendStep(same: Comparator, s: map<Name, Node>, m: map<Name, Node>, done: set<Name>, n: Name)
    requires done <= s.Keys && done <= m.Keys
    requires forall k :: k in done ==> s[k].Dir? && m[k].Dir?
    requires n in s && n in m && s[n].Dir? && m[n].Dir? && n !in done
    ensures n in Descend(same, s, m, done) && Descend(same, s, m, done)[n] == m[n]
    ensures Descend(same, s, m, done)[n := Dir(Reconcile(same, s[n].entries, m[n].entries))]
            == Descend(same, s, m, done + {n})
  {
    var before := Descend(same, s, m, done);
    var after := Descend(same, s, m, done + {n});
    var x := Dir(Reconcile(same, s[n].entries, m[n].entries));
    assert before.Keys == m.Keys && after.Keys == m.Keys;
    forall k | k in m ensures before[n := x][k] == after[k] {
      if k != n && k !in done {
        assert before[k] == m[k] && after[k] == m[k];
      }
    }
    MapsEqual(before[n := x], after);
  }

  /** The replica as seen from `p + [n]` after reconciling that subdirectory, seen from `p`. */
  lemma ChildLevelStep(r0: Node, p: Path, e: map<Name, Node>, n: Name, prev: Node, next: Node, x: Node)
    requires Get(r0, p).Some?
    requires prev == Put(r0, p, Dir(e)) && n in e
    requires Get(prev, p + [n]).Some?
    requires next == Put(prev, p + [n], x)
    ensures next == Put(r0, p, Dir(e[n := x]))
  {
    PutChild(prev, p, n, x);
    PutPut(r0, p, Dir(e), Dir(e[n := x]));
  }

  /** The subdirectory passes read only the subdirectories' own entries. */
  lemma SubdirActionsAgree(same: Comparator, p: Path, s: map<Name, Node>, r: map<Name, Node>, m: map<Name, Node>, names: set<Name>)
    requires names <= s.Keys && names <= r.Keys && names <= m.Keys
    requires forall n :: n in names ==> s[n].Dir? && r[n].Dir? && r[n] == m[n]
    ensures SubdirActions(same, p, s, r, names) == SubdirActions(same, p, s, m, names)
  {
  }

  /**
   The records logged for the subdirectories done so far, followed by those of
   one more subdirectory's pass, are the records of all of them, still in order.
   */
  lemma SubdirLogStep(same: Comparator, p: Path, s: map<Name, Node>, r: map<Name, Node>, done: set<Name>, n: Name,
                      added: seq<Record>, child: seq<Record>)
    requires done <= s.Keys && done <= r.Keys
    requires forall k :: k in done ==> s[k].Dir? && r[k].Dir?
    requires n in s && n in r && s[n].Dir? && r[n].Dir? && n !in done
    requires multiset(added) == multiset(SubdirActions(same, p, s, r, done)) && InOrder(added) && DepthFirst(added)
    requires multiset(child) == multiset(Actions(same, p + [n], s[n].entries, r[n].entries))
    requires InOrder(child) && DepthFirst(child)
    ensures multiset(added + child) == multiset(SubdirActions(same, p, s, r, done + {n}))
    ensures InOrder(added + child) && DepthFirst(added + child)
  {
    SubdirActionsAdd(same, p, s, r, done, n);
    SubdirActionsInside(same, p, s, r, done);
    ChildActionsInside(same, p, n, s[n].entries, r[n].entries);
    forall a, b | a in added && b in child ensures MayPrecede(a, b) {
      assert a in multiset(added) && b in multiset(child);
      PrecedesSibling(a, b, p, done, n);
    }
    InOrderConcat(added, child);
    SubdirDepthStep(same, p, s, r, done, n, added, child);
  }

  /** The depth-first half of SubdirLogStep: one more subdirectory's records form their own stretch. */
  lemma SubdirDepthStep(same: Comparator, p: Path, s: map<Name, Node>, r: map<Name, Node>, done: set<Name>, n: Name,
                        added: seq<Record>, child: seq<Record>)
    requires done <= s.Keys && done <= r.Keys
    requires forall k :: k in done ==> s[k].Dir? && r[k].Dir?
    requires n in s && n in r && s[n].Dir? && r[n].Dir? && n !in done
    requires multiset(added) == multiset(SubdirActions(same, p, s, r, done)) && DepthFirst(added)
    requires multiset(child) == multiset(Actions(same, p + [n], s[n].entries, r[n].entries)) && DepthFirst(child)
    ensures DepthFirst(added + child)
  {
    SubdirActionsInside(same, p, s, r, done);
    ChildActionsInside(same, p, n, s[n].entries, r[n].entries);
    forall a | a in added ensures Inside(a.dir, p, done) {
      assert a in multiset(added);
    }
    forall b | b in child ensures Inside(b.dir, p, {n}) {
      assert b in multiset(child);
    }
    DepthFirstConcat(added, child, p, done, {n});
  }

  /** Appending to a log already split into its old part and its new records. */
  lemma AppendLog<T>(log0: seq<T>, added: seq<T>, more: seq<T>)
    ensures (log0 + added) + more == log0 + (added + more)
  {
  }

  /** Every record of `log` is about the directory `p`, in the phase `k`. */
  ghost predicate AtLevel(log: seq<Record>, p: Path, k: nat) {
    forall a :: a in log ==> a.dir == p && Phase(a) == k
  }

  lemma LevelLogs(p: Path, s: map<Name, Node>, dl: seq<Record>, del: set<Name>, cl: seq<Record>, cp: set<Name>,
                  sl: seq<Record>, sy: set<Name>)
    requires cp <= s.Keys
    requires multiset(dl) == multiset(DeleteActions(p, del))
    requires multiset(cl) == multiset(CopyActions(p, s, cp))
    requires multiset(sl) == multiset(SyncActions(p, sy))
    ensures AtLevel(dl, p, 0) && AtLevel(cl, p, 1) && AtLevel(sl, p, 2)
  {
    forall a | a in dl ensures a.dir == p && Phase(a) == 0 {
      assert a in multiset(dl);
    }
    forall a | a in cl ensures a.dir == p && Phase(a) == 1 {
      assert a in multiset(cl);
    }
    forall a | a in sl ensures a.dir == p && Phase(a) == 2 {
      assert a in multiset(sl);
    }
  }

  /** Records of one directory all in one phase are in order. */
  lemma AtLevelInOrder(log: seq<Record>, p: Path, k: nat)
    requires AtLevel(log, p, k)
    ensures InOrder(log)
  {
    forall i, j | 0 <= i < j < |log| ensures MayPrecede(log[i], log[j]) {
      assert log[i] in log && log[j] in log;
    }
  }

  /**
   A pass's log: deletions, then creations, then updates at `p`, then the
   subdirectories' records in order. Together they are the pass's records, in order.
   */
  lemma PassLog(same: Comparator, p: Path, s: map<Name, Node>, r: map<Name, Node>,
                dl: seq<Record>, cl: seq<Record>, sl: seq<Record>, sub: seq<Record>)
    requires var d := Compare(same, s, r);
             && multiset(dl) == multiset(DeleteActions(p, d.rightOnly))
             && multiset(cl) == multiset(CopyActions(p, s, d.leftOnly))
             && multiset(sl) == multiset(SyncActions(p, d.diffFiles))
             && multiset(sub) == multiset(SubdirActions(same, p, s, r, d.subdirs))
    requires InOrder(sub) && DepthFirst(sub)
    ensures multiset(dl + cl + sl + sub) == multiset(Actions(same, p, s, r))
    ensures InOrder(dl + cl + sl + sub) && DepthFirst(dl + cl + sl + sub)
  {
    ActionsSplit(same, p, s, r);
    assert multiset(dl + cl + sl + sub) == multiset(dl) + multiset(cl) + multiset(sl) + multiset(sub);
    PassOrder(same, p, s, r, dl, cl, sl, sub);
    PassDepth(same, p, s, r, dl, cl, sl, sub);
  }

  /** The depth-first half of PassLog: the level's own records, then each subdirectory's in one stretch. */
  lemma PassDepth(same: Comparator, p: Path, s: map<Name, Node>, r: map<Name, Node>,
                  dl: seq<Record>, cl: seq<Record>, sl: seq<Record>, sub: seq<Record>)
    requires var d := Compare(same, s, r);
             && multiset(dl) == multiset(DeleteActions(p, d.rightOnly))
             && multiset(cl) == multiset(CopyActions(p, s, d.leftOnly))
             && multiset(sl) == multiset(SyncActions(p, d.diffFiles))
             && multiset(sub) == multiset(SubdirActions(same, p, s, r, d.subdirs))
    requires DepthFirst(sub)
    ensures DepthFirst(dl + cl + sl + sub)
  {
    var d := Compare(same, s, r);
    LevelLogs(p, s, dl, d.rightOnly, cl, d.leftOnly, sl, d.diffFiles);
    var level := dl + cl + sl;
    forall a | a in level ensures a.dir == p {
      assert a in dl || a in cl || a in sl;
    }
    DepthFirstLevel(level, p);
    SubdirActionsInside(same, p, s, r, d.subdirs);
    forall b | b in sub ensures Inside(b.dir, p, d.subdirs) {
      assert b in multiset(sub);
    }
    DepthFirstConcat(level, sub, p, {}, d.subdirs);
  }

  /** The ordering half of PassLog. */
  lemma PassOrder(same: Comparator, p: Path, s: map<Name, Node>, r: map<Name, Node>,
                  dl: seq<Record>, cl: seq<Record>, sl: seq<Record>, sub: seq<Record>)
    requires var d := Compare(same, s, r);
             && multiset(dl) == multiset(DeleteActions(p, d.rightOnly))
             && multiset(cl) == multiset(CopyActions(p, s, d.leftOnly))
             && multiset(sl) == multiset(SyncActions(p, d.diffFiles))
             && multiset(sub) == multiset(SubdirActions(same, p, s, r, d.subdirs))
    requires InOrder(sub)
    ensures InOrder(dl + cl + sl + sub)
  {
    var d := Compare(same, s, r);
    LevelLogs(p, s, dl, d.rightOnly, cl, d.leftOnly, sl, d.diffFiles);
    AtLevelInOrder(dl, p, 0);
    AtLevelInOrder(cl, p, 1);
    AtLevelInOrder(sl, p, 2);
    InOrderConcat(dl, cl);
    InOrderConcat(dl + cl, sl);
    var level := dl + cl + sl;
    SubdirActionsInside(same, p, s, r, d.subdirs);
    forall a, b | a in level && b in sub ensures MayPrecede(a, b) {
      assert b in multiset(sub);
    }
    InOrderConcat(level, sub);
  }

  /**
   PassLog for a level that went on to its updates and subdirectories, whose
   subdirectory passes read the listing left by the updates.
   */
  lemma FullPassLog(same: Comparator, p: Path, s: map<Name, Node>, e0: map<Name, Node>, m0: map<Name, Node>,
                    m1: map<Name, Node>, m2: map<Name, Node>,
                    dl: seq<Record>, cl: seq<Record>, sl: seq<Record>, sub: seq<Record>)
    requires var d := Compare(same, s, e0);
             && m0 == e0 - d.rightOnly
             && m1 == Install(s, m0, d.leftOnly)
             && m2 == Install(s, m1, d.diffFiles)
             && multiset(dl) == multiset(DeleteActions(p, d.rightOnly))
             && multiset(cl) == multiset(CopyActions(p, s, d.leftOnly))
             && multiset(sl) == multiset(SyncActions(p, d.diffFiles))
             && d.subdirs <= m2.Keys && (forall n :: n in d.subdirs ==> m2[n].Dir?)
             && multiset(sub) == multiset(SubdirActions(same, p, s, m2, d.subdirs))
    requires InOrder(sub) && DepthFirst(sub)
    ensures multiset(dl + cl + sl + sub) == multiset(Actions(same, p, s, e0))
    ensures InOrder(dl + cl + sl + sub) && DepthFirst(dl + cl + sl + sub)
  {
    var d := Compare(same, s, e0);
    LevelFacts(same, s, e0, m0, m1, m2);
    SubdirActionsAgree(same, p, s, e0, m2, d.subdirs);
    PassLog(same, p, s, e0, dl, cl, sl, sub);
  }
}
