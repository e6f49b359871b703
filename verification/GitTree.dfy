// buildTree (src/server/git/objects.ts): serializing a tree, and reading it back.
module GitTree {
  import opened Wrappers
  import opened Bytes
  import opened Sorting
  import opened Objects
  import opened Unicode

  datatype TreeEntry = TreeEntry(mode: string, name: string, sha: Units)

  const DIRECTORY := "40000"

  // What an entry is compared by.
  function SortKey(e: TreeEntry): string {
    if e.mode == DIRECTORY then e.name + "/" else e.name
  }

  function EntryLess(a: TreeEntry, b: TreeEntry): bool { StringLess(SortKey(a), SortKey(b)) }

  // Mode and name with a space between and a NUL behind, then the id's raw bytes.
  function EntryBytes(e: TreeEntry): Bytes {
    Utf8(e.mode + [' '] + e.name + ['\0']) + FromHex(e.sha)
  }

  function TreeBytes(entries: seq<TreeEntry>): Bytes {
    if entries == [] then [] else EntryBytes(entries[0]) + TreeBytes(entries[1..])
  }

  function SortedEntries(entries: seq<TreeEntry>): seq<TreeEntry> { Sort(entries, EntryLess) }

  lemma LessIsOrder()
    ensures StrictOrder(EntryLess)
  {
    hide StringLess;
    forall a ensures !EntryLess(a, a) { StringTrichotomy(SortKey(a), SortKey(a)); }
    forall a, b, c | EntryLess(a, b) && EntryLess(b, c) ensures EntryLess(a, c) {
      StringTransitive(SortKey(a), SortKey(b), SortKey(c));
    }
    forall a, b, c | EntryLess(a, b) ensures EntryLess(a, c) || EntryLess(c, b) {
      Between(SortKey(a), SortKey(b), SortKey(c));
    }
  }

  lemma {:induction false} TreeSnoc(entries: seq<TreeEntry>, e: TreeEntry)
    ensures TreeBytes(entries + [e]) == TreeBytes(entries) + EntryBytes(e)
  {
    hide EntryBytes;
    if entries == [] {
      assert ([] + [e])[1..] == [];
    } else {
      assert (entries + [e])[1..] == entries[1..] + [e];
      TreeSnoc(entries[1..], e);
    }
  }

  // The content of the tree object for some entries: those entries, in order of their keys. The
  // parts are joined at the end.
  method BuildTree(entries: seq<TreeEntry>) returns (content: Bytes)
    ensures content == TreeBytes(SortedEntries(entries))
    ensures Sorted(SortedEntries(entries), EntryLess) && multiset(SortedEntries(entries)) == multiset(entries)
  {
    LessIsOrder();
    SortSorts(entries, EntryLess);
    var sorted := SortedEntries(entries);
    var parts: seq<Bytes> := [];
    NoParts();
    hide *;
    for i := 0 to |sorted|
      invariant Concat(parts) == TreeBytes(sorted[..i])
    {
      var e := sorted[i];
      NextEntry(sorted, i);
      PartsOfEntry(parts, e);
      parts := parts + [Utf8(e.mode + [' '] + e.name + ['\0'])];
      var id := HexToBytes(e.sha);
      parts := parts + [id];
    }
    assert sorted[..|sorted|] == sorted;
    content := ConcatParts(parts);
  }

  lemma NextEntry(entries: seq<TreeEntry>, i: nat)
    requires i < |entries|
    ensures TreeBytes(entries[..i + 1]) == TreeBytes(entries[..i]) + EntryBytes(entries[i])
  {
    assert entries[..i + 1] == entries[..i] + [entries[i]];
    TreeSnoc(entries[..i], entries[i]);
  }

  lemma NoParts()
    ensures Concat([]) == [] == TreeBytes([])
  {}

  lemma PartsOfEntry(parts: seq<Bytes>, e: TreeEntry)
    ensures Concat(parts + [Utf8(e.mode + [' '] + e.name + ['\0'])] + [FromHex(e.sha)]) == Concat(parts) + EntryBytes(e)
  {
    hide Concat;
    ConcatTwo(parts, Utf8(e.mode + [' '] + e.name + ['\0']), FromHex(e.sha));
  }

  // Files and directories with different names and no slash in them never compare equal.
  ghost predicate ProperNames(entries: seq<TreeEntry>) {
    && (forall e | e in entries :: '/' !in e.name)
    && forall a, b | a in entries && b in entries && a != b :: a.name != b.name
  }

  lemma KeysDiffer(a: TreeEntry, b: TreeEntry)
    requires a.name != b.name && '/' !in a.name && '/' !in b.name
    ensures SortKey(a) != SortKey(b)
  {
    assert SortKey(a)[..|a.name|] == a.name && SortKey(b)[..|b.name|] == b.name;
    assert a.mode == DIRECTORY ==> SortKey(a)[|a.name|] == '/';
    assert b.mode == DIRECTORY ==> SortKey(b)[|b.name|] == '/';
  }

  // Git's own comparison of two entries: at the first byte that differs, where a name that has
  // ended counts as '/' for a directory and as NUL for anything else.
  predicate GitLess(a: Bytes, aIsDirectory: bool, b: Bytes, bIsDirectory: bool) {
    if a != [] && b != [] && a[0] == b[0] then GitLess(a[1..], aIsDirectory, b[1..], bIsDirectory)
    else NextByte(a, aIsDirectory) < NextByte(b, bIsDirectory)
  }

  predicate GitBefore(a: TreeEntry, b: TreeEntry) {
    GitLess(Utf8(a.name), a.mode == DIRECTORY, Utf8(b.name), b.mode == DIRECTORY)
  }

  const SLASH: Byte := 47

  function NextByte(name: Bytes, isDirectory: bool): Byte {
    if name != [] then name[0] else if isDirectory then SLASH else 0
  }

  predicate Storable(name: string) { '/' !in name && '\0' !in name }

  // Two names whose first difference is between a character of two UTF-16 units and one of the
  // last that take a single unit.
  predicate OrdersPart(a: string, b: string) {
    && a != "" && b != ""
    && if a[0] == b[0] then OrdersPart(a[1..], b[1..])
       else (TwoUnits(a[0]) && LateUnit(b[0])) || (LateUnit(a[0]) && TwoUnits(b[0]))
  }

  lemma {:induction false} GitLessAfter(start: Bytes, a: Bytes, aIsDirectory: bool, b: Bytes, bIsDirectory: bool)
    ensures GitLess(start + a, aIsDirectory, start + b, bIsDirectory) <==> GitLess(a, aIsDirectory, b, bIsDirectory)
  {
    if start == [] {
      assert start + a == a && start + b == b;
    } else {
      assert (start + a)[1..] == start[1..] + a && (start + b)[1..] == start[1..] + b;
      GitLessAfter(start[1..], a, aIsDirectory, b, bIsDirectory);
    }
  }

  lemma {:induction false} GitLessAt(a: Bytes, aIsDirectory: bool, b: Bytes, bIsDirectory: bool, k: nat)
    requires k < |a| && k < |b| && a[..k] == b[..k] && a[k] != b[k]
    ensures GitLess(a, aIsDirectory, b, bIsDirectory) <==> a[k] < b[k]
  {
    GitLessAfter(a[..k], a[k..], aIsDirectory, b[k..], bIsDirectory);
    assert a == a[..k] + a[k..] && b == b[..k] + b[k..];
  }

  // Where names differ in a character, git goes by the characters.
  lemma GitLessByCharacter(c: char, x: Bytes, aIsDirectory: bool, d: char, y: Bytes, bIsDirectory: bool)
    requires c != d
    ensures GitLess(BytesOf(c) + x, aIsDirectory, BytesOf(d) + y, bIsDirectory) <==> c < d
  {
    hide BytesOf, GitLess;
    var k;
    if c < d { k := BytesDiffer(c, d); } else { k := BytesDiffer(d, c); }
    var a, b := BytesOf(c) + x, BytesOf(d) + y;
    assert a[..k] == BytesOf(c)[..k] && b[..k] == BytesOf(d)[..k];
    GitLessAt(a, aIsDirectory, b, bIsDirectory, k);
  }

  // The two orders of two names, one character at a time.
  lemma {:induction false} KeyOrderIsGits(a: string, aIsDirectory: bool, b: string, bIsDirectory: bool)
    requires Storable(a) && Storable(b) && a != b
    ensures (StringLess(if aIsDirectory then a + "/" else a, if bIsDirectory then b + "/" else b)
             <==> GitLess(Utf8(a), aIsDirectory, Utf8(b), bIsDirectory))
            <==> !OrdersPart(a, b)
    decreases |a|
  {
    var left, right := if aIsDirectory then a + "/" else a, if bIsDirectory then b + "/" else b;
    StringLessStep(left, right);
    if a == "" || b == "" {
      hide StringLess;
      OneEnds(a, aIsDirectory, b, bIsDirectory);
    } else {
      hide BytesOf, StringLess, Rank, GitLess;
      assert left[0] == a[0] && right[0] == b[0];
      if a[0] == b[0] {
        assert a == [a[0]] + a[1..] && b == [b[0]] + b[1..];
        assert left[1..] == if aIsDirectory then a[1..] + "/" else a[1..];
        assert right[1..] == if bIsDirectory then b[1..] + "/" else b[1..];
        KeyOrderIsGits(a[1..], aIsDirectory, b[1..], bIsDirectory);
        GitLessAfter(BytesOf(a[0]), Utf8(a[1..]), aIsDirectory, Utf8(b[1..]), bIsDirectory);
      } else {
        GitLessByCharacter(a[0], Utf8(a[1..]), aIsDirectory, b[0], Utf8(b[1..]), bIsDirectory);
        RanksPart(a[0], b[0]);
      }
    }
  }

  lemma RanksPart(c: char, d: char)
    requires c != d
    ensures (Rank(c) < Rank(d) <==> c < d) <==> !((TwoUnits(c) && LateUnit(d)) || (LateUnit(c) && TwoUnits(d)))
  {}

  // A name that has ended comes before every character but NUL and those up to the slash.
  lemma OneEnds(a: string, aIsDirectory: bool, b: string, bIsDirectory: bool)
    requires Storable(a) && Storable(b) && a != b && (a == "" || b == "")
    ensures var left, right := if aIsDirectory then a + "/" else a, if bIsDirectory then b + "/" else b;
      GitLess(Utf8(a), aIsDirectory, Utf8(b), bIsDirectory) <==>
        right != "" && (left == "" || Rank(left[0]) < Rank(right[0]))
  {
    assert a != "" ==> Utf8(a)[0] == BytesOf(a[0])[0] && a[0] != '/' && a[0] != '\0';
    assert b != "" ==> Utf8(b)[0] == BytesOf(b[0])[0] && b[0] != '/' && b[0] != '\0';
  }

  // Sorting directories as though their names ended in a slash is git's comparison, exactly where
  // the names do not part the order of UTF-16 units from that of UTF-8 bytes.
  lemma {:induction false} OrderIsGitsIff(a: TreeEntry, b: TreeEntry)
    requires Storable(a.name) && Storable(b.name) && a.name != b.name
    ensures (EntryLess(a, b) <==> GitBefore(a, b)) <==> !OrdersPart(a.name, b.name)
  {
    KeyOrderIsGits(a.name, a.mode == DIRECTORY, b.name, b.mode == DIRECTORY);
  }

  ghost predicate InGitsOrder(entries: seq<TreeEntry>) {
    forall i, j | 0 <= i < j < |entries| :: GitBefore(entries[i], entries[j])
  }

  // A tree comes out in git's order exactly if no two of its names part the two orders.
  lemma {:induction false} TreeInGitsOrderIff(entries: seq<TreeEntry>)
    requires NoRepeats(entries) && ProperNames(entries) && forall e | e in entries :: Storable(e.name)
    ensures InGitsOrder(SortedEntries(entries)) <==> forall a, b | a in entries && b in entries :: !OrdersPart(a.name, b.name)
  {
    var sorted := SortedEntries(entries);
    KeysDistinguish(entries);
    LessIsOrder();
    SortDistinct(entries, EntryLess);
    hide Sort, OrdersPart, StringLess, StrictOrder, EntryLess, GitBefore, Distinguished;
    forall i, j | 0 <= i < j < |sorted| ensures GitBefore(sorted[i], sorted[j]) <==> !OrdersPart(sorted[i].name, sorted[j].name) {
      assert EntryLess(sorted[i], sorted[j]) && sorted[i] in entries && sorted[j] in entries;
      BeforeIff(sorted[i], sorted[j]);
    }
    hide *;
    PairsSuffice(entries, sorted);
  }

  // It is enough to look at the pairs of the sorted entries, in their order.
  lemma PairsSuffice(entries: seq<TreeEntry>, sorted: seq<TreeEntry>)
    requires forall e :: e in sorted <==> e in entries
    requires forall i, j | 0 <= i < j < |sorted| :: GitBefore(sorted[i], sorted[j]) <==> !OrdersPart(sorted[i].name, sorted[j].name)
    ensures InGitsOrder(sorted) <==> forall a, b | a in entries && b in entries :: !OrdersPart(a.name, b.name)
  {
    hide GitBefore, OrdersPart;
    if InGitsOrder(sorted) {
      forall a, b | a in entries && b in entries ensures !OrdersPart(a.name, b.name) {
        var i :| 0 <= i < |sorted| && sorted[i] == a;
        var j :| 0 <= j < |sorted| && sorted[j] == b;
        PartsBothWays(a.name, b.name);
      }
    } else {
      var i, j :| 0 <= i < j < |sorted| && !GitBefore(sorted[i], sorted[j]);
      assert sorted[i] in entries && sorted[j] in entries;
    }
  }

  lemma BeforeIff(a: TreeEntry, b: TreeEntry)
    requires EntryLess(a, b) && Storable(a.name) && Storable(b.name) && (a != b ==> a.name != b.name)
    ensures GitBefore(a, b) <==> !OrdersPart(a.name, b.name)
  {
    StringTrichotomy(SortKey(a), SortKey(b));
    OrderIsGitsIff(a, b);
  }

  lemma {:induction false} PartsBothWays(a: string, b: string)
    ensures OrdersPart(a, b) <==> OrdersPart(b, a)
    ensures !OrdersPart(a, a)
  {
    if a != "" {
      PartsBothWays(a[1..], if b != "" then b[1..] else "");
    }
  }

  // Two files that git orders the other way round.
  lemma OrderParts()
    ensures var late, two := TreeEntry("100644", "\U{FF41}", []), TreeEntry("100644", "\U{1F600}", []);
      EntryLess(two, late) && GitBefore(late, two)
  {
    var late, two := TreeEntry("100644", "\U{FF41}", []), TreeEntry("100644", "\U{1F600}", []);
    StringLessStep(two.name, late.name);
    assert Utf8(late.name)[0] == BytesOf(late.name[0])[0] && Utf8(two.name)[0] == BytesOf(two.name[0])[0];
    hide StringLess;
  }

  lemma KeysDistinguish(entries: seq<TreeEntry>)
    requires ProperNames(entries)
    ensures Distinguished(entries, EntryLess)
  {
    hide StringLess;
    forall x, y | x in entries && y in entries && x != y ensures EntryLess(x, y) || EntryLess(y, x) {
      KeysDiffer(x, y);
      StringTrichotomy(SortKey(x), SortKey(y));
    }
  }

  // The tree is the same whatever order its entries were collected in.
  lemma {:induction false} TreeForgetsOrder(a: seq<TreeEntry>, b: seq<TreeEntry>)
    requires multiset(a) == multiset(b) && ProperNames(a)
    ensures SortedEntries(a) == SortedEntries(b)
  {
    LessIsOrder();
    KeysDistinguish(a);
    SortForgetsOrder(a, b, EntryLess);
  }

  // ---- reading ----------------------------------------------------------------------

  // What stands before the first occurrence of a byte, and what follows it.
  function Until(b: Bytes, stop: Byte): Option<(Bytes, Bytes)> {
    if b == [] then None
    else if b[0] == stop then Some(([], b[1..]))
    else match Until(b[1..], stop) case None => None case Some((head, rest)) => Some(([b[0]] + head, rest))
  }

  lemma {:induction false} UntilShrinks(b: Bytes, stop: Byte)
    ensures Until(b, stop).Some? ==> |Until(b, stop).value.1| < |b|
  {
    if b != [] && b[0] != stop { UntilShrinks(b[1..], stop); }
  }

  lemma {:induction false} UntilFinds(head: Bytes, stop: Byte, rest: Bytes)
    requires stop !in head
    ensures Until(head + [stop] + rest, stop) == Some((head, rest))
  {
    var b := head + [stop] + rest;
    if head == [] {
      assert b[1..] == rest;
    } else {
      assert b[1..] == head[1..] + [stop] + rest;
      UntilFinds(head[1..], stop, rest);
      assert head == [head[0]] + head[1..];
    }
  }

  lemma {:induction false} UntilStops(b: Bytes, stop: Byte)
    ensures Until(b, stop).Some? ==> stop !in Until(b, stop).value.0
  {
    if b != [] && b[0] != stop { UntilStops(b[1..], stop); }
  }

  // What a reader finds: modes, names and ids as bytes.
  datatype Stored = Stored(mode: Bytes, name: Bytes, id: Bytes)

  function StoredAs(e: TreeEntry): Stored { Stored(Utf8(e.mode), Utf8(e.name), FromHex(e.sha)) }

  function AllStored(entries: seq<TreeEntry>): seq<Stored> {
    if entries == [] then [] else [StoredAs(entries[0])] + AllStored(entries[1..])
  }

  // One entry off the front.
  function ReadEntry(b: Bytes): Option<(Stored, Bytes)> {
    match Until(b, SPACE)
    case None => None
    case Some((mode, afterMode)) =>
      match Until(afterMode, 0)
      case None => None
      case Some((name, afterName)) =>
        if |afterName| < 20 then None else Some((Stored(mode, name, afterName[..20]), afterName[20..]))
  }

  lemma ReadEntryShape(b: Bytes)
    ensures var r := ReadEntry(b);
      r.Some? ==> |r.value.1| < |b| && SPACE !in r.value.0.mode && 0 !in r.value.0.name && |r.value.0.id| == 20
  {
    UntilShrinks(b, SPACE);
    UntilStops(b, SPACE);
    if Until(b, SPACE).Some? {
      var afterMode := Until(b, SPACE).value.1;
      UntilShrinks(afterMode, 0);
      UntilStops(afterMode, 0);
    }
  }

  function ReadTree(b: Bytes): Option<seq<Stored>>
    decreases |b|
  {
    if b == [] then Some([])
    else
      ReadEntryShape(b);
      match ReadEntry(b)
      case None => None
      case Some((entry, after)) =>
        match ReadTree(after) case None => None case Some(rest) => Some([entry] + rest)
  }

  // Modes, names and ids that the format can carry.
  predicate Readable(e: TreeEntry) { ' ' !in e.mode && '\0' !in e.name && |e.sha| / 2 == 20 }

  lemma {:induction false} EntryReadsBack(e: TreeEntry, rest: Bytes)
    requires Readable(e)
    ensures ReadEntry(EntryBytes(e) + rest) == Some((StoredAs(e), rest))
  {
    var mode, name, id := Utf8(e.mode), Utf8(e.name), FromHex(e.sha);
    EntryLayout(e);
    Utf8Holds(e.mode, SPACE);
    Utf8Holds(e.name, 0);
    BytesOfHex(e.sha);
    hide Utf8, FromHex, EntryBytes, Until;
    var afterMode := name + [0] + (id + rest);
    LayoutBefore(mode, name, id, rest);
    UntilFinds(mode, SPACE, afterMode);
    UntilFinds(name, 0, id + rest);
    assert (id + rest)[..20] == id && (id + rest)[20..] == rest;
  }

  lemma LayoutBefore(mode: Bytes, name: Bytes, id: Bytes, rest: Bytes)
    ensures mode + [SPACE] + name + [0] + id + rest == mode + [SPACE] + (name + [0] + (id + rest))
  {}

  lemma EntryLayout(e: TreeEntry)
    ensures EntryBytes(e) == Utf8(e.mode) + [SPACE] + Utf8(e.name) + [0] + FromHex(e.sha)
  {
    Utf8Concat(e.mode + [' '] + e.name, ['\0']);
    Utf8Concat(e.mode + [' '], e.name);
    Utf8Concat(e.mode, [' ']);
    assert Utf8([' ']) == [SPACE] && Utf8(['\0']) == [0];
  }

  lemma {:induction false} ReadTreeShape(b: Bytes)
    ensures ReadTree(b).Some? ==> forall s | s in ReadTree(b).value :: SPACE !in s.mode && 0 !in s.name && |s.id| == 20
    decreases |b|
  {
    ReadEntryShape(b);
    hide ReadEntry;
    if b != [] && ReadEntry(b).Some? { ReadTreeShape(ReadEntry(b).value.1); }
  }

  lemma {:induction false} StoredAll(entries: seq<TreeEntry>, e: TreeEntry)
    requires e in entries
    ensures StoredAs(e) in AllStored(entries)
  {
    if e != entries[0] { StoredAll(entries[1..], e); }
  }

  // A serialized tree parses back to its entries exactly if the format can carry them all.
  lemma {:induction false} TreeReadsBackIff(entries: seq<TreeEntry>)
    ensures ReadTree(TreeBytes(entries)) == Some(AllStored(entries)) <==> forall e | e in entries :: Readable(e)
  {
    if forall e | e in entries :: Readable(e) {
      TreeReadsBack(entries);
    } else {
      var e :| e in entries && !Readable(e);
      StoredAll(entries, e);
      ReadTreeShape(TreeBytes(entries));
      Utf8Holds(e.mode, SPACE);
      Utf8Holds(e.name, 0);
      BytesOfHex(e.sha);
      hide ReadTree, TreeBytes, AllStored, Utf8, FromHex;
    }
  }

  lemma {:induction false} TreeReadsBack(entries: seq<TreeEntry>)
    requires forall e | e in entries :: Readable(e)
    ensures ReadTree(TreeBytes(entries)) == Some(AllStored(entries))
  {
    if entries != [] {
      TreeReadsBack(entries[1..]);
      EntryReadsBack(entries[0], TreeBytes(entries[1..]));
      ReadEntryShape(TreeBytes(entries));
      hide EntryBytes, ReadEntry, StoredAs, Readable;
    }
  }

  // And what is read tells entries apart, ids up to the case of their digits.
  lemma StoredApart(a: TreeEntry, b: TreeEntry)
    requires StoredAs(a) == StoredAs(b) && LowerHexDigits(a.sha) && LowerHexDigits(b.sha) && |a.sha| == |b.sha| == 40
    ensures a == b
  {
    if a.mode != b.mode { Utf8Injective(a.mode, b.mode); }
    if a.name != b.name { Utf8Injective(a.name, b.name); }
    LowerHexReadsBack(a.sha);
    LowerHexReadsBack(b.sha);
  }
}
