/**
 The one-level directory comparison the synchroniser relies on (the role of
 Python's `filecmp.dircmp`). Two listings are compared by name; a name present
 on both sides is classified by the kinds of its two entries and, for two files,
 by a caller-supplied equality test `same` (the library's shallow test is not
 part of this model).
 */
module DirCmp {
  import opened FsTree

  /** File equality as the comparator decides it. */
  type Comparator = (Content, Content) -> bool

  /**
   The classes of names at one level. `commonFunny` holds the names that are a
   file on one side and a directory on the other; the synchroniser never reads it.
   */
  datatype DirDiff = DirDiff(
    leftOnly: set<Name>,
    rightOnly: set<Name>,
    sameFiles: set<Name>,
    diffFiles: set<Name>,
    subdirs: set<Name>,
    commonFunny: set<Name>)

  /** `n` is on both sides, a file on one and a directory on the other. */
  predicate Mismatch(left: map<Name, Node>, right: map<Name, Node>, n: Name) {
    n in left && n in right && left[n].File? != right[n].File?
  }

  /** Every name of either side is in exactly one class, and no class holds anything else. */
  predicate Partitions(d: DirDiff, left: map<Name, Node>, right: map<Name, Node>) {
    && d.leftOnly + d.rightOnly + d.sameFiles + d.diffFiles + d.subdirs + d.commonFunny
       == left.Keys + right.Keys
    && d.leftOnly !! d.rightOnly && d.leftOnly !! d.sameFiles && d.leftOnly !! d.diffFiles
    && d.leftOnly !! d.subdirs && d.leftOnly !! d.commonFunny
    && d.rightOnly !! d.sameFiles && d.rightOnly !! d.diffFiles && d.rightOnly !! d.subdirs
    && d.rightOnly !! d.commonFunny
    && d.sameFiles !! d.diffFiles && d.sameFiles !! d.subdirs && d.sameFiles !! d.commonFunny
    && d.diffFiles !! d.subdirs && d.diffFiles !! d.commonFunny
    && d.subdirs !! d.commonFunny
  }

  /** Compares the listings `left` (source) and `right` (replica) of one directory level. */
  function Compare(same: Comparator, left: map<Name, Node>, right: map<Name, Node>): (d: DirDiff)
    ensures Partitions(d, left, right)
    ensures d.leftOnly !! right.Keys && d.leftOnly <= left.Keys
    ensures d.rightOnly !! left.Keys && d.rightOnly <= right.Keys
    ensures forall n :: n in d.diffFiles ==>
              n in left && n in right && left[n].File? && right[n].File?
              && !same(left[n].content, right[n].content)
    ensures forall n :: n in d.sameFiles ==>
              n in left && n in right && left[n].File? && right[n].File?
              && same(left[n].content, right[n].content)
    ensures forall n :: n in d.subdirs ==> n in left && n in right && left[n].Dir? && right[n].Dir?
    ensures forall n :: n in d.commonFunny <==> Mismatch(left, right, n)
  {
    var common := left.Keys * right.Keys;
    DirDiff(
      left.Keys - right.Keys,
      right.Keys - left.Keys,
      set n | n in common && left[n].File? && right[n].File? && same(left[n].content, right[n].content),
      set n | n in common && left[n].File? && right[n].File? && !same(left[n].content, right[n].content),
      set n | n in common && left[n].Dir? && right[n].Dir?,
      set n | n in common && left[n].File? != right[n].File?)
  }
}
