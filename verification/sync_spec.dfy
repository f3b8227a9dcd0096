/**
 What one synchronisation pass does, stated as functions of the source and
 replica listings of a directory level: the replica listing it leaves behind
 (Reconcile), the log records it emits (Actions) and the orders they come in
 (InOrder, DepthFirst); and the properties of a pass: convergence,
 idempotence, no type repair.
 */
module SyncSpec {
  import opened FsTree
  import opened DirCmp

  /**
   One debug record of the log. `dir` is the directory, relative to the two
   roots, whose listing the action changes, and `name` the entry inside it; the
   logged absolute paths are the source or replica root followed by `dir` and `name`.
   */
  datatype Record =
    | Deleted(dir: Path, name: Name)
    | FileCopied(dir: Path, name: Name)
    | DirCopied(dir: Path, name: Name)
    | Synced(dir: Path, name: Name)

  /** Deletions come first at a level, then creations, then updates. */
  function Phase(a: Record): nat {
    match a
    case Deleted(_, _) => 0
    case FileCopied(_, _) => 1
    case DirCopied(_, _) => 1
    case Synced(_, _) => 2
  }

  /** `r` with the source entries of `names` installed in place of whatever was there. */
  function Install(s: map<Name, Node>, r: map<Name, Node>, names: set<Name>): map<Name, Node>
    requires names <= s.Keys
  {
    map n | n in r.Keys + names :: if n in names then s[n] else r[n]
  }

  /** `m` with every directory of `names` replaced by its reconciled copy. */
  function Descend(same: Comparator, s: map<Name, Node>, m: map<Name, Node>, names: set<Name>): map<Name, Node>
    requires names <= s.Keys && names <= m.Keys
    requires forall n :: n in names ==> s[n].Dir? && m[n].Dir?
    decreases Dir(s), 0
  {
    m + map n | n in names :: Dir(Reconcile(same, s[n].entries, m[n].entries))
  }

  /**
   The replica listing one pass leaves at a level with source listing `s` and
   replica listing `r`: delete the replica-only names, copy the source-only
   names, overwrite the differing files, then reconcile each common subdirectory.
   */
  function Reconcile(same: Comparator, s: map<Name, Node>, r: map<Name, Node>): (m: map<Name, Node>)
    ensures m.Keys == s.Keys
    decreases Dir(s), 1
  {
    var d := Compare(same, s, r);
    Descend(same, s, Install(s, Install(s, r - d.rightOnly, d.leftOnly), d.diffFiles), d.subdirs)
  }

  ghost function DeleteActions(p: Path, names: set<Name>): set<Record> {
    set n | n in names :: Deleted(p, n)
  }

  ghost function CopyActions(p: Path, s: map<Name, Node>, names: set<Name>): set<Record>
    requires names <= s.Keys
  {
    set n | n in names :: if s[n].File? then FileCopied(p, n) else DirCopied(p, n)
  }

  ghost function SyncActions(p: Path, names: set<Name>): set<Record> {
    set n | n in names :: Synced(p, n)
  }

  /** The records a pass emits at the level `p` itself. */
  ghost function LevelActions(same: Comparator, p: Path, s: map<Name, Node>, r: map<Name, Node>): set<Record> {
    var d := Compare(same, s, r);
    DeleteActions(p, d.rightOnly) + CopyActions(p, s, d.leftOnly) + SyncActions(p, d.diffFiles)
  }

  /** The records a pass emits at the level `p` and below it. */
  ghost function Actions(same: Comparator, p: Path, s: map<Name, Node>, r: map<Name, Node>): set<Record>
    decreases Dir(s), 1
  {
    var d := Compare(same, s, r);
    LevelActions(same, p, s, r) + SubdirActions(same, p, s, r, d.subdirs)
  }

  /** The records of the passes over the common subdirectories `names` of the level `p`. */
  ghost function SubdirActions(same: Comparator, p: Path, s: map<Name, Node>, r: map<Name, Node>, names: set<Name>): set<Record>
    requires names <= s.Keys && names <= r.Keys
    requires forall n :: n in names ==> s[n].Dir? && r[n].Dir?
    decreases Dir(s), 0
  {
    set n, a | n in names && a in Actions(same, p + [n], s[n].entries, r[n].entries) :: a
  }

  /** `q` lies strictly below the directory `p`. */
  ghost predicate Below(q: Path, p: Path) {
    |p| < |q| && q[..|p|] == p
  }

  /**
   `a` may be logged before `b`: within one directory the phases keep their
   order, and nothing is done in a directory after something was done below it.
   */
  ghost predicate MayPrecede(a: Record, b: Record) {
    && (a.dir == b.dir ==> Phase(a) <= Phase(b))
    && !Below(a.dir, b.dir)
  }

  ghost predicate InOrder(log: seq<Record>) {
    forall i, j :: 0 <= i < j < |log| ==> MayPrecede(log[i], log[j])
  }

  lemma LevelActionsAt(same: Comparator, p: Path, s: map<Name, Node>, r: map<Name, Node>)
    ensures forall a :: a in LevelActions(same, p, s, r) ==> a.dir == p
  {
  }

  /** `q` lies inside one of the entries `names` of the directory `p`. */
  ghost predicate Inside(q: Path, p: Path, names: set<Name>) {
    |p| < |q| && q[..|p|] == p && q[|p|] in names
  }

  /** Every record of a pass at `p` is about `p` itself, as one of its level's, or about a directory inside a common subdirectory. */
  lemma {:induction false} ActionsBelow(same: Comparator, p: Path, s: map<Name, Node>, r: map<Name, Node>)
    ensures forall a :: a in Actions(same, p, s, r) ==>
              || (a.dir == p && a in LevelActions(same, p, s, r))
              || Inside(a.dir, p, Compare(same, s, r).subdirs)
    decreases Dir(s), 1
  {
    var d := Compare(same, s, r);
    LevelActionsAt(same, p, s, r);
    SubdirActionsInside(same, p, s, r, d.subdirs);
  }

  /** The records of the passes over the subdirectories `names` are about directories inside them. */
  lemma {:induction false} SubdirActionsInside(same: Comparator, p: Path, s: map<Name, Node>, r: map<Name, Node>, names: set<Name>)
    requires names <= s.Keys && names <= r.Keys
    requires forall n :: n in names ==> s[n].Dir? && r[n].Dir?
    ensures forall a :: a in SubdirActions(same, p, s, r, names) ==> Inside(a.dir, p, names)
    decreases Dir(s), 0
  {
    forall a | a in SubdirActions(same, p, s, r, names) ensures Inside(a.dir, p, names) {
      var n :| n in names && a in Actions(same, p + [n], s[n].entries, r[n].entries);
      ActionsBelow(same, p + [n], s[n].entries, r[n].entries);
      InsideChild(a.dir, p, n, Compare(same, s[n].entries, r[n].entries).subdirs);
    }
  }

  /** A path at `p + [n]` or inside it is inside the entry `n` of `p`. */
  lemma InsideChild(q: Path, p: Path, n: Name, names: set<Name>)
    requires q == p + [n] || Inside(q, p + [n], names)
    ensures Inside(q, p, {n})
  {
    assert (p + [n])[..|p|] == p;
    if q != p + [n] {
      assert q[..|p + [n]|][..|p|] == q[..|p|];
      assert q[..|p + [n]|][|p|] == q[|p|];
    }
  }

  /** The records of a pass at `p` split into its level's deletions, creations and updates and its subdirectories' records, none shared. */
  lemma ActionsSplit(same: Comparator, p: Path, s: map<Name, Node>, r: map<Name, Node>)
    ensures var d := Compare(same, s, r);
            multiset(Actions(same, p, s, r))
            == multiset(DeleteActions(p, d.rightOnly)) + multiset(CopyActions(p, s, d.leftOnly))
               + multiset(SyncActions(p, d.diffFiles)) + multiset(SubdirActions(same, p, s, r, d.subdirs))
  {
    var d := Compare(same, s, r);
    var del, cp, sy := DeleteActions(p, d.rightOnly), CopyActions(p, s, d.leftOnly), SyncActions(p, d.diffFiles);
    var sub := SubdirActions(same, p, s, r, d.subdirs);
    SubdirActionsInside(same, p, s, r, d.subdirs);
    LevelActionsAt(same, p, s, r);
    assert del !! cp && del + cp !! sy;
    MultisetOfDisjointUnion(del, cp);
    MultisetOfDisjointUnion(del + cp, sy);
    MultisetOfDisjointUnion(del + cp + sy, sub);
  }

  /** Adding one more subdirectory adds its pass's records, which no other subdirectory's pass shares. */
  lemma SubdirActionsAdd(same: Comparator, p: Path, s: map<Name, Node>, r: map<Name, Node>, done: set<Name>, n: Name)
    requires done <= s.Keys && done <= r.Keys
    requires forall m :: m in done ==> s[m].Dir? && r[m].Dir?
    requires n in s && n in r && s[n].Dir? && r[n].Dir? && n !in done
    ensures multiset(SubdirActions(same, p, s, r, done + {n}))
            == multiset(SubdirActions(same, p, s, r, done)) + multiset(Actions(same, p + [n], s[n].entries, r[n].entries))
  {
    var old_ := SubdirActions(same, p, s, r, done);
    var child := Actions(same, p + [n], s[n].entries, r[n].entries);
    SubdirActionsInside(same, p, s, r, done);
    ChildActionsInside(same, p, n, s[n].entries, r[n].entries);
    assert SubdirActions(same, p, s, r, done + {n}) == old_ + child;
    MultisetOfDisjointUnion(old_, child);
  }

  /** The records of the pass over the subdirectory `n` of `p` are all about directories inside `n`. */
  lemma ChildActionsInside(same: Comparator, p: Path, n: Name, s: map<Name, Node>, r: map<Name, Node>)
    ensures forall a :: a in Actions(same, p + [n], s, r) ==> Inside(a.dir, p, {n})
  {
    ActionsBelow(same, p + [n], s, r);
    forall a | a in Actions(same, p + [n], s, r) ensures Inside(a.dir, p, {n}) {
      InsideChild(a.dir, p, n, Compare(same, s, r).subdirs);
    }
  }

  lemma DeleteActionsAdd(p: Path, done: set<Name>, x: Name)
    requires x !in done
    ensures Deleted(p, x) !in DeleteActions(p, done)
    ensures DeleteActions(p, done + {x}) == DeleteActions(p, done) + {Deleted(p, x)}
  {
  }

  lemma CopyActionsAdd(p: Path, s: map<Name, Node>, done: set<Name>, x: Name)
    requires done <= s.Keys && x in s && x !in done
    ensures var a := if s[x].File? then FileCopied(p, x) else DirCopied(p, x);
            && a !in CopyActions(p, s, done)
            && CopyActions(p, s, done + {x}) == CopyActions(p, s, done) + {a}
  {
  }

  lemma SyncActionsAdd(p: Path, done: set<Name>, x: Name)
    requires x !in done
    ensures Synced(p, x) !in SyncActions(p, done)
    ensures SyncActions(p, done + {x}) == SyncActions(p, done) + {Synced(p, x)}
  {
  }

  /** Installing no names leaves the listing as it is. */
  lemma InstallNone(s: map<Name, Node>, r: map<Name, Node>)
    ensures Install(s, r, {}) == r
  {
  }

  /** Installing one more name is writing its source entry over the listing installed so far. */
  lemma InstallStep(s: map<Name, Node>, r: map<Name, Node>, done: set<Name>, x: Name)
    requires done <= s.Keys && x in s
    ensures Install(s, r, done)[x := s[x]] == Install(s, r, done + {x})
  {
  }

  /** Moving one name from the names still to do to the names done keeps them a split of `all`. */
  lemma SplitStep<T>(todo: set<T>, done: set<T>, all: set<T>, x: T)
    requires todo !! done && todo + done == all && x in todo
    ensures todo - {x} !! done + {x} && (todo - {x}) + (done + {x}) == all
  {
  }

  lemma MapMinusStep<K, V>(m: map<K, V>, done: set<K>, x: K)
    ensures (m - done) - {x} == m - (done + {x})
  {
  }

  /**
   A log `log0 + added` whose new records `added` are exactly `done`, extended
   by a record not yet among them: the new records are then `done + {a}`.
   */
  lemma LogStep<T>(log0: seq<T>, added: seq<T>, done: set<T>, a: T)
    requires multiset(added) == multiset(done) && a !in done
    ensures (log0 + added) + [a] == log0 + (added + [a])
    ensures multiset(added + [a]) == multiset(done + {a})
  {
    MultisetOfDisjointUnion(done, {a});
  }

  lemma MultisetOfDisjointUnion<T>(a: set<T>, b: set<T>)
    requires a !! b
    ensures multiset(a + b) == multiset(a) + multiset(b)
  {
  }

  /** Two logs in order stay in order when every record of the first may precede every record of the second. */
  lemma InOrderConcat(log: seq<Record>, more: seq<Record>)
    requires InOrder(log) && InOrder(more)
    requires forall a, b :: a in log && b in more ==> MayPrecede(a, b)
    ensures InOrder(log + more)
  {
    forall i, j | 0 <= i < j < |log + more| ensures MayPrecede((log + more)[i], (log + more)[j]) {
      if j < |log| {
      } else if i >= |log| {
        assert (log + more)[i] == more[i - |log|] && (log + more)[j] == more[j - |log|];
      } else {
        assert (log + more)[i] in log && (log + more)[j] in more;
      }
    }
  }

  /** The directory `d` is `q` itself or lies below it. */
  ghost predicate AtOrBelow(d: Path, q: Path) {
    |q| <= |d| && d[..|q|] == q
  }

  /**
   Depth-first: the records about any one directory and what lies below it
   form one unbroken stretch of the log, so the records of one subtree never
   come between those of another.
   */
  ghost predicate DepthFirst(log: seq<Record>) {
    forall i, j, k, q :: 0 <= i < j < k < |log| && AtOrBelow(log[i].dir, q) && AtOrBelow(log[k].dir, q)
      ==> AtOrBelow(log[j].dir, q)
  }

  /** Records all about the one directory `p` are trivially depth-first. */
  lemma DepthFirstLevel(log: seq<Record>, p: Path)
    requires forall a :: a in log ==> a.dir == p
    ensures DepthFirst(log)
  {
    forall i, j, k, q | 0 <= i < j < k < |log| && AtOrBelow(log[i].dir, q) && AtOrBelow(log[k].dir, q)
      ensures AtOrBelow(log[j].dir, q)
    {
      assert log[i] in log && log[j] in log;
    }
  }

  /** `d` at or below `p`, and `p` at or below `q`, gives `d` at or below `q`. */
  lemma AtOrBelowTrans(d: Path, p: Path, q: Path)
    requires AtOrBelow(d, p) && AtOrBelow(p, q)
    ensures AtOrBelow(d, q)
  {
    assert d[..|p|][..|q|] == d[..|q|];
  }

  /**
   Two directories at or below `q`, one at `p` or inside the entries `done`
   of `p` and the other inside the entries `rest`, with no entry in common:
   `q` is then `p` or above it.
   */
  lemma CommonAncestor(a: Path, c: Path, p: Path, q: Path, done: set<Name>, rest: set<Name>)
    requires a == p || Inside(a, p, done)
    requires Inside(c, p, rest) && done !! rest
    requires AtOrBelow(a, q) && AtOrBelow(c, q)
    ensures AtOrBelow(p, q)
  {
    assert |q| <= |p|;
    assert c[..|p|][..|q|] == c[..|q|];
  }

  /**
   A depth-first log about `p` and the subdirectories `done`, followed by a
   depth-first log inside the other subdirectories `rest`, is depth-first.
   */
  lemma DepthFirstConcat(log: seq<Record>, more: seq<Record>, p: Path, done: set<Name>, rest: set<Name>)
    requires DepthFirst(log) && DepthFirst(more)
    requires forall a :: a in log ==> a.dir == p || Inside(a.dir, p, done)
    requires forall b :: b in more ==> Inside(b.dir, p, rest)
    requires done !! rest
    ensures DepthFirst(log + more)
  {
    var all := log + more;
    forall i, j, k, q | 0 <= i < j < k < |all| && AtOrBelow(all[i].dir, q) && AtOrBelow(all[k].dir, q)
      ensures AtOrBelow(all[j].dir, q)
    {
      if k < |log| {
        assert all[i] == log[i] && all[j] == log[j] && all[k] == log[k];
      } else if i >= |log| {
        assert all[i] == more[i - |log|] && all[j] == more[j - |log|] && all[k] == more[k - |log|];
      } else {
        assert all[i] in log && all[k] in more && all[j] in all;
        CommonAncestor(all[i].dir, all[k].dir, p, q, done, rest);
        if j < |log| {
          assert all[j] in log;
        } else {
          assert all[j] == more[j - |log|];
        }
        AtOrBelowTrans(all[j].dir, p, q);
      }
    }
  }

  /** A record of the level `p`, or inside a subdirectory already done, may precede one inside a further subdirectory. */
  lemma PrecedesSibling(a: Record, b: Record, p: Path, done: set<Name>, n: Name)
    requires a.dir == p || Inside(a.dir, p, done)
    requires Inside(b.dir, p, {n}) && n !in done
    ensures MayPrecede(a, b)
  {
  }

  /** What a pass leaves under each source name, by the class the name falls in. */
  lemma ReconcileEntry(same: Comparator, s: map<Name, Node>, r: map<Name, Node>, n: Name)
    requires n in s
    ensures var d := Compare(same, s, r);
            var m := Reconcile(same, s, r);
            && (n in d.leftOnly || n in d.diffFiles ==> m[n] == s[n])
            && (n in d.subdirs ==> m[n] == Dir(Reconcile(same, s[n].entries, r[n].entries)))
            && (n in d.sameFiles || n in d.commonFunny ==> m[n] == r[n])
  {
  }

  /** File equality under the comparator holds of every file and itself. */
  ghost predicate Reflexive(same: Comparator) {
    forall c :: same(c, c)
  }

  /** The comparator never calls two different files equal. */
  ghost predicate Conservative(same: Comparator) {
    forall a, b :: same(a, b) ==> a == b
  }

  /** At every level reached through common directories, each common name has the same kind on both sides. */
  ghost predicate SameKinds(s: map<Name, Node>, r: map<Name, Node>)
    decreases Dir(s)
  {
    forall n :: n in s && n in r ==>
      && s[n].File? == r[n].File?
      && (s[n].Dir? ==> SameKinds(s[n].entries, r[n].entries))
  }

  /** `r` has the names of `s` at every level, and each file of `r` is equal under the comparator to its source file. */
  ghost predicate Mirrors(same: Comparator, s: map<Name, Node>, r: map<Name, Node>)
    decreases Dir(s)
  {
    && s.Keys == r.Keys
    && forall n :: n in s ==>
         || (s[n].File? && r[n].File? && same(s[n].content, r[n].content))
         || (s[n].Dir? && r[n].Dir? && Mirrors(same, s[n].entries, r[n].entries))
  }

  /** Under a reflexive comparator every tree mirrors itself. */
  lemma {:induction false} MirrorsSelf(same: Comparator, s: map<Name, Node>)
    requires Reflexive(same)
    ensures Mirrors(same, s, s)
    decreases Dir(s)
  {
    forall n | n in s && s[n].Dir? ensures Mirrors(same, s[n].entries, s[n].entries) {
      MirrorsSelf(same, s[n].entries);
    }
  }

  /** Under a conservative comparator a mirror is an exact copy. */
  lemma {:induction false} MirrorsExact(same: Comparator, s: map<Name, Node>, r: map<Name, Node>)
    requires Conservative(same)
    requires Mirrors(same, s, r)
    ensures r == s
    decreases Dir(s)
  {
    forall n | n in s ensures r[n] == s[n] {
      if s[n].Dir? {
        MirrorsExact(same, s[n].entries, r[n].entries);
      }
    }
  }

  /**
   Convergence: when no common name changes kind between source and replica,
   one pass leaves a replica that mirrors the source.
   */
  lemma {:induction false} Converges(same: Comparator, s: map<Name, Node>, r: map<Name, Node>)
    requires Reflexive(same)
    requires SameKinds(s, r)
    ensures Mirrors(same, s, Reconcile(same, s, r))
    decreases Dir(s)
  {
    var d := Compare(same, s, r);
    var m := Reconcile(same, s, r);
    forall n | n in s
      ensures || (s[n].File? && m[n].File? && same(s[n].content, m[n].content))
              || (s[n].Dir? && m[n].Dir? && Mirrors(same, s[n].entries, m[n].entries))
    {
      ReconcileEntry(same, s, r, n);
      if n in d.leftOnly || n in d.diffFiles {
        if s[n].Dir? {
          MirrorsSelf(same, s[n].entries);
        }
      } else if n in d.subdirs {
        Converges(same, s[n].entries, r[n].entries);
      } else {
        assert n !in d.commonFunny;
      }
    }
  }

  /** With a comparator that is exact on files, one pass makes the replica a copy of the source. */
  lemma ConvergesExactly(same: Comparator, s: map<Name, Node>, r: map<Name, Node>)
    requires Reflexive(same) && Conservative(same)
    requires SameKinds(s, r)
    ensures Reconcile(same, s, r) == s
  {
    Converges(same, s, r);
    MirrorsExact(same, s, Reconcile(same, s, r));
  }

  /**
   No type repair: a name that is a file on one side and a directory on the
   other keeps its replica entry, so the replica does not mirror the source.
   */
  lemma KindMismatchKept(same: Comparator, s: map<Name, Node>, r: map<Name, Node>, n: Name)
    requires Mismatch(s, r, n)
    ensures n in Reconcile(same, s, r) && Reconcile(same, s, r)[n] == r[n]
    ensures !Mirrors(same, s, Reconcile(same, s, r))
  {
    ReconcileEntry(same, s, r, n);
  }

  /**
   One record per action: a level's records name each replica-only name once
   as a deletion, each source-only name once as a file or directory copy by
   the kind of its source entry, each differing file once as an update, and
   nothing else.
   */
  lemma LevelRecords(same: Comparator, p: Path, s: map<Name, Node>, r: map<Name, Node>)
    ensures var d := Compare(same, s, r);
            var level := LevelActions(same, p, s, r);
            && (forall n :: Deleted(p, n) in level <==> n in d.rightOnly)
            && (forall n :: FileCopied(p, n) in level <==> n in d.leftOnly && s[n].File?)
            && (forall n :: DirCopied(p, n) in level <==> n in d.leftOnly && s[n].Dir?)
            && (forall n :: Synced(p, n) in level <==> n in d.diffFiles)
            && (forall a :: a in level ==> a.dir == p)
  {
    var d := Compare(same, s, r);
    DeleteRecords(p, d.rightOnly, CopyActions(p, s, d.leftOnly), SyncActions(p, d.diffFiles));
    CopyRecords(p, s, d.leftOnly, DeleteActions(p, d.rightOnly), SyncActions(p, d.diffFiles));
    SyncRecords(p, d.diffFiles, DeleteActions(p, d.rightOnly), CopyActions(p, s, d.leftOnly));
  }

  lemma DeleteRecords(p: Path, names: set<Name>, cp: set<Record>, sy: set<Record>)
    requires forall a :: a in cp ==> a.FileCopied? || a.DirCopied?
    requires forall a :: a in sy ==> a.Synced?
    ensures forall n :: Deleted(p, n) in DeleteActions(p, names) + cp + sy <==> n in names
  {
  }

  lemma CopyRecords(p: Path, s: map<Name, Node>, names: set<Name>, del: set<Record>, sy: set<Record>)
    requires names <= s.Keys
    requires forall a :: a in del ==> a.Deleted?
    requires forall a :: a in sy ==> a.Synced?
    ensures forall n :: FileCopied(p, n) in del + CopyActions(p, s, names) + sy <==> n in names && s[n].File?
    ensures forall n :: DirCopied(p, n) in del + CopyActions(p, s, names) + sy <==> n in names && s[n].Dir?
  {
    forall n | n in names ensures (if s[n].File? then FileCopied(p, n) else DirCopied(p, n)) in CopyActions(p, s, names) { }
  }

  lemma SyncRecords(p: Path, names: set<Name>, del: set<Record>, cp: set<Record>)
    requires forall a :: a in del ==> a.Deleted?
    requires forall a :: a in cp ==> a.FileCopied? || a.DirCopied?
    ensures forall n :: Synced(p, n) in del + cp + SyncActions(p, names) <==> n in names
  {
  }

  /** A level emits no record of its own exactly when it has nothing to delete, copy or overwrite. */
  lemma LevelQuiet(same: Comparator, p: Path, s: map<Name, Node>, r: map<Name, Node>)
    ensures var d := Compare(same, s, r);
            LevelActions(same, p, s, r) == {} <==> d.rightOnly == {} && d.leftOnly == {} && d.diffFiles == {}
  {
    var d := Compare(same, s, r);
    forall n | n in d.rightOnly ensures Deleted(p, n) in LevelActions(same, p, s, r) { }
    forall n | n in d.leftOnly
      ensures (if s[n].File? then FileCopied(p, n) else DirCopied(p, n)) in LevelActions(same, p, s, r)
    { }
    forall n | n in d.diffFiles ensures Synced(p, n) in LevelActions(same, p, s, r) { }
  }

  /** A pass emits no record exactly when its level emits none and neither does any common subdirectory. */
  lemma TreeQuiet(same: Comparator, p: Path, s: map<Name, Node>, r: map<Name, Node>)
    ensures var d := Compare(same, s, r);
            Actions(same, p, s, r) == {} <==>
              && LevelActions(same, p, s, r) == {}
              && forall n :: n in d.subdirs ==> Actions(same, p + [n], s[n].entries, r[n].entries) == {}
  {
    var d := Compare(same, s, r);
    forall n, a | n in d.subdirs && a in Actions(same, p + [n], s[n].entries, r[n].entries)
      ensures a in Actions(same, p, s, r)
    { }
  }

  /** A pass that would emit no record changes nothing: the loops mutate only where they log. */
  lemma {:induction false} QuietPassKeepsReplica(same: Comparator, p: Path, s: map<Name, Node>, r: map<Name, Node>)
    requires Actions(same, p, s, r) == {}
    ensures Reconcile(same, s, r) == r
    decreases Dir(s), 1
  {
    QuietPassKeepsEntries(same, p, s, r);
    MapsEqual(Reconcile(same, s, r), r);
  }

  lemma {:induction false} QuietPassKeepsEntries(same: Comparator, p: Path, s: map<Name, Node>, r: map<Name, Node>)
    requires Actions(same, p, s, r) == {}
    ensures s.Keys == r.Keys
    ensures forall n :: n in s ==> Reconcile(same, s, r)[n] == r[n]
    decreases Dir(s), 0
  {
    var d := Compare(same, s, r);
    QuietFacts(same, p, s, r);
    forall n | n in s ensures Reconcile(same, s, r)[n] == r[n] {
      ReconcileEntry(same, s, r, n);
      if n in d.subdirs {
        QuietPassKeepsReplica(same, p + [n], s[n].entries, r[n].entries);
      }
    }
  }

  /** What a level without records looks like: only common files and directories, each subdirectory quiet too. */
  lemma QuietFacts(same: Comparator, p: Path, s: map<Name, Node>, r: map<Name, Node>)
    requires Actions(same, p, s, r) == {}
    ensures var d := Compare(same, s, r);
            && s.Keys == r.Keys
            && d.leftOnly == {} && d.rightOnly == {} && d.diffFiles == {}
            && s.Keys == d.sameFiles + d.subdirs + d.commonFunny
            && forall n :: n in d.subdirs ==> Actions(same, p + [n], s[n].entries, r[n].entries) == {}
  {
    TreeQuiet(same, p, s, r);
    LevelQuiet(same, p, s, r);
  }

  lemma MapsEqual<K, V>(m: map<K, V>, r: map<K, V>)
    requires m.Keys == r.Keys
    requires forall k :: k in m ==> m[k] == r[k]
    ensures m == r
  {
  }

  /** A pass over a replica that already is a copy of the source emits no record. */
  lemma {:induction false} CopyIsQuiet(same: Comparator, p: Path, s: map<Name, Node>)
    requires Reflexive(same)
    ensures Actions(same, p, s, s) == {}
    decreases Dir(s)
  {
    var d := Compare(same, s, s);
    forall n | n in s && s[n].File? ensures same(s[n].content, s[n].content) { }
    LevelQuiet(same, p, s, s);
    forall n | n in d.subdirs ensures Actions(same, p + [n], s[n].entries, s[n].entries) == {} {
      CopyIsQuiet(same, p + [n], s[n].entries);
    }
    TreeQuiet(same, p, s, s);
  }

  /** A second pass over an unchanged source emits no record. */
  lemma {:induction false} SecondPassQuiet(same: Comparator, p: Path, s: map<Name, Node>, r: map<Name, Node>)
    requires Reflexive(same)
    ensures Actions(same, p, s, Reconcile(same, s, r)) == {}
    decreases Dir(s)
  {
    var d := Compare(same, s, r);
    var m := Reconcile(same, s, r);
    var d2 := Compare(same, s, m);
    forall n | n in s && s[n].File? && m[n].File? ensures same(s[n].content, m[n].content) {
      ReconcileEntry(same, s, r, n);
    }
    LevelQuiet(same, p, s, m);
    forall n | n in d2.subdirs ensures Actions(same, p + [n], s[n].entries, m[n].entries) == {} {
      ReconcileEntry(same, s, r, n);
      if n in d.subdirs {
        SecondPassQuiet(same, p + [n], s[n].entries, r[n].entries);
      } else {
        CopyIsQuiet(same, p + [n], s[n].entries);
      }
    }
    TreeQuiet(same, p, s, m);
  }

  /** Idempotence: a second pass over an unchanged source leaves the replica as the first pass left it. */
  lemma Idempotent(same: Comparator, s: map<Name, Node>, r: map<Name, Node>)
    requires Reflexive(same)
    ensures Reconcile(same, s, Reconcile(same, s, r)) == Reconcile(same, s, r)
  {
    SecondPassQuiet(same, [], s, r);
    QuietPassKeepsReplica(same, [], s, Reconcile(same, s, r));
  }
}
