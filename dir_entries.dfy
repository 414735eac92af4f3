/** Directory entries as VS Code's `readDirectory` reports them, and the
    order in which both the directory lister and the text editor's listing
    put them: directories first, then by name. The name comparison
    (`localeCompare`) belongs to the host; it is a parameter here, any total
    preorder on names. */
module DirEntries {

  /** A name and a file-type bit set: 1 is a file, 2 a directory, 64 a
      symbolic link (a link to a directory carries 64 + 2). */
  datatype Entry = Entry(name: string, fileType: nat)

  const DirectoryBit: nat := 2
  const SymbolicLinkBit: nat := 64

  /** `type & bit` is non-zero, for a single-bit `bit`. */
  predicate HasBit(fileType: nat, bit: nat)
    requires bit == DirectoryBit || bit == SymbolicLinkBit
  {
    (fileType / bit) % 2 == 1
  }

  predicate IsDirectory(e: Entry) {
    HasBit(e.fileType, DirectoryBit)
  }

  predicate IsSymbolicLink(e: Entry) {
    HasBit(e.fileType, SymbolicLinkBit)
  }

  /** What the sort needs of the host's name comparison: every two names
      are comparable, and the comparison is transitive. */
  ghost predicate TotalPreorder(leq: (string, string) -> bool) {
    (forall a, b :: leq(a, b) || leq(b, a)) &&
    (forall a, b, c :: leq(a, b) && leq(b, c) ==> leq(a, c))
  }

  /** The comparator of both sorts: a directory comes before a file;
      entries of the same kind compare by name. */
  predicate EntryLeq(leq: (string, string) -> bool, a: Entry, b: Entry) {
    if IsDirectory(a) != IsDirectory(b) then IsDirectory(a)
    else leq(a.name, b.name)
  }

  ghost predicate Sorted(leq: (string, string) -> bool, es: seq<Entry>) {
    forall i, j :: 0 <= i < j < |es| ==> EntryLeq(leq, es[i], es[j])
  }

  /** `e` goes before the first element it does not follow; an element it
      ties with stays after it. */
  function Insert(leq: (string, string) -> bool, e: Entry, es: seq<Entry>): (r: seq<Entry>)
    ensures multiset(r) == multiset(es) + multiset{e}
    ensures TotalPreorder(leq) && Sorted(leq, es) ==> Sorted(leq, r)
    decreases |es|
  {
    if es == [] || EntryLeq(leq, e, es[0]) then
      assert TotalPreorder(leq) && Sorted(leq, es) ==> Sorted(leq, [e] + es) by {
        if TotalPreorder(leq) && Sorted(leq, es) && es != [] {
          InsertAtHead(leq, e, es);
        }
      }
      [e] + es
    else
      var rest := Insert(leq, e, es[1..]);
      assert es == [es[0]] + es[1..];
      assert TotalPreorder(leq) && Sorted(leq, es) ==> Sorted(leq, [es[0]] + rest) by {
        if TotalPreorder(leq) && Sorted(leq, es) {
          InsertBehindHead(leq, e, es, rest);
        }
      }
      [es[0]] + rest
  }

  // An entry that precedes the head of a sorted run precedes all of it.
  lemma InsertAtHead(leq: (string, string) -> bool, e: Entry, es: seq<Entry>)
    requires TotalPreorder(leq) && Sorted(leq, es) && es != [] && EntryLeq(leq, e, es[0])
    ensures Sorted(leq, [e] + es)
  {
    var r := [e] + es;
    forall i, j | 0 <= i < j < |r| ensures EntryLeq(leq, r[i], r[j]) {
      assert r[j] == es[j - 1];
      if i > 0 {
        assert r[i] == es[i - 1];
      } else if j > 1 {
        assert EntryLeq(leq, es[0], es[j - 1]);
        EntryLeqTransitive(leq);
      }
    }
  }

  // The head that `e` does not precede stays in front of everything after it.
  lemma InsertBehindHead(leq: (string, string) -> bool, e: Entry, es: seq<Entry>, rest: seq<Entry>)
    requires TotalPreorder(leq) && Sorted(leq, es) && es != [] && !EntryLeq(leq, e, es[0])
    requires multiset(rest) == multiset(es[1..]) + multiset{e} && Sorted(leq, rest)
    ensures Sorted(leq, [es[0]] + rest)
  {
    EntryLeqTotal(leq, e, es[0]);
    forall k | 0 <= k < |rest| ensures EntryLeq(leq, es[0], rest[k]) {
      assert rest[k] in multiset(rest);
      if rest[k] != e {
        assert rest[k] in multiset(es[1..]);
        var m :| 0 <= m < |es[1..]| && es[1..][m] == rest[k];
        assert es[1 + m] == rest[k];
      }
    }
    var r := [es[0]] + rest;
    forall i, j | 0 <= i < j < |r| ensures EntryLeq(leq, r[i], r[j]) {
      assert r[j] == rest[j - 1];
      if i > 0 {
        assert r[i] == rest[i - 1];
      }
    }
  }

  /** The entries of a directory in listing order, directories first and
      then by name: an insertion sort of the entries returned by
      `readDirectory`, which reorders them so that the comparator holds
      between every earlier and every later one. */
  function SortEntries(leq: (string, string) -> bool, es: seq<Entry>): (r: seq<Entry>)
    ensures multiset(r) == multiset(es)
    ensures TotalPreorder(leq) ==> Sorted(leq, r)
    decreases |es|
  {
    if es == [] then []
    else
      assert es == [es[0]] + es[1..];
      Insert(leq, es[0], SortEntries(leq, es[1..]))
  }

  lemma EntryLeqTotal(leq: (string, string) -> bool, a: Entry, b: Entry)
    requires TotalPreorder(leq)
    ensures EntryLeq(leq, a, b) || EntryLeq(leq, b, a)
  {
  }

  lemma EntryLeqTransitive(leq: (string, string) -> bool)
    requires TotalPreorder(leq)
    ensures forall a, b, c :: EntryLeq(leq, a, b) && EntryLeq(leq, b, c) ==> EntryLeq(leq, a, c)
  {
  }

  /** What the order means for the listing: every directory comes before
      every non-directory, and two entries of the same kind appear in name
      order. */
  lemma SortedMeaning(leq: (string, string) -> bool, es: seq<Entry>, i: int, j: int)
    requires Sorted(leq, es) && 0 <= i < j < |es|
    ensures IsDirectory(es[j]) ==> IsDirectory(es[i])
    ensures IsDirectory(es[i]) == IsDirectory(es[j]) ==> leq(es[i].name, es[j].name)
  {
    assert EntryLeq(leq, es[i], es[j]);
  }

  /** The exact test `type === Directory` against the bit test: a type
      passes it if and only if it has the directory bit and no other bit, so
      a type with the link bit never passes, and a link to a directory
      (type 66) has both bits. */
  lemma ExactDirectoryTest(t: nat)
    ensures t == DirectoryBit <==> HasBit(t, DirectoryBit) && t % 2 == 0 && t < 4
    ensures HasBit(t, SymbolicLinkBit) ==> t != DirectoryBit
    ensures HasBit(DirectoryBit + SymbolicLinkBit, DirectoryBit) && HasBit(DirectoryBit + SymbolicLinkBit, SymbolicLinkBit)
  {
    if HasBit(t, DirectoryBit) && t % 2 == 0 && t < 4 {
      assert t / 2 == 1;
    }
  }
}
