/** Comparing the manifest of a client with the server's, as a commit does, and applying the
    result, as a push does (Asst3/common/util.c). */
module ManifestCompare {
  import opened CTypes
  import opened ManifestItems

  /** The fields of an item that a comparison looks at. */
  datatype Entry = Entry(name: seq<byte>, version: int, hash: seq<byte>, newhash: seq<byte>)

  /** Code 1: to be stored at the server; code 3: to be removed from it. */
  datatype Change = Change(name: seq<byte>, code: int)

  function EntryOf(item: Item): Entry
    reads item
  {
    Entry(item.filename, item.versionNum, item.hash, item.newhash)
  }

  ghost function Entries(items: seq<Item>): (es: seq<Entry>)
    reads items
    ensures |es| == |items| && forall i :: 0 <= i < |items| ==> es[i] == EntryOf(items[i])
  {
    seq(|items|, i requires 0 <= i < |items| reads items => EntryOf(items[i]))
  }

  ghost predicate Sorted(es: seq<Entry>) {
    forall i, k :: 0 <= i < k < |es| ==> Before(es[i].name, es[k].name)
  }

  ghost predicate SortedChanges(l: seq<Change>) {
    forall i, k :: 0 <= i < k < |l| ==> Before(l[i].name, l[k].name)
  }

  /** The merge of c from i on and s from j on. */
  function ChangesFrom(c: seq<Entry>, i: nat, s: seq<Entry>, j: nat): seq<Change>
    requires i <= |c| && j <= |s|
    decreases |c| - i + |s| - j
  {
    if i == |c| && j == |s| then []
    else if i == |c| || (j < |s| && Before(s[j].name, c[i].name)) then
      [Change(s[j].name, 3)] + ChangesFrom(c, i, s, j + 1)
    else if j == |s| || Before(c[i].name, s[j].name) then
      [Change(c[i].name, 1)] + ChangesFrom(c, i + 1, s, j)
    else if c[i].newhash != s[j].hash then
      [Change(c[i].name, 1)] + ChangesFrom(c, i + 1, s, j + 1)
    else ChangesFrom(c, i + 1, s, j + 1)
  }

  function Changes(c: seq<Entry>, s: seq<Entry>): seq<Change> {
    ChangesFrom(c, 0, s, 0)
  }

  // ---------- What the merge reports ----------

  /** Entry p of the client is missing at the server, or differs from what is stored there. */
  ghost predicate Differs(c: seq<Entry>, p: nat, s: seq<Entry>, j: nat) {
    p < |c| && forall q :: j <= q < |s| && s[q].name == c[p].name ==> s[q].hash != c[p].newhash
  }

  /** Entry q of the server is missing at the client. */
  ghost predicate Gone(c: seq<Entry>, i: nat, s: seq<Entry>, q: nat) {
    q < |s| && forall p :: i <= p < |c| ==> c[p].name != s[q].name
  }

  ghost predicate DiffersAs(c: seq<Entry>, i: nat, s: seq<Entry>, j: nat, p: nat, name: seq<byte>) {
    i <= p < |c| && c[p].name == name && Differs(c, p, s, j)
  }

  ghost predicate GoneAs(c: seq<Entry>, i: nat, s: seq<Entry>, j: nat, q: nat, name: seq<byte>) {
    j <= q < |s| && s[q].name == name && Gone(c, i, s, q)
  }

  ghost predicate Reports(c: seq<Entry>, i: nat, s: seq<Entry>, j: nat, x: Change) {
    (x.code == 1 && exists p: nat :: DiffersAs(c, i, s, j, p, x.name))
    || (x.code == 3 && exists q: nat :: GoneAs(c, i, s, j, q, x.name))
  }

  lemma NamesAhead(es: seq<Entry>, i: nat, name: seq<byte>)
    requires Sorted(es) && i < |es| && Before(name, es[i].name)
    ensures forall p :: i <= p < |es| ==> Before(name, es[p].name) && es[p].name != name
  {
    forall p | i <= p < |es| ensures Before(name, es[p].name) && es[p].name != name {
      if i < p {
        CmpTransitive(name, es[i].name, es[p].name);
      }
      NeverBeforeItself(name, es[p].name);
    }
  }

  /** Steps from one stage of the merge to a later one keep what they do not skip. */
  lemma SameReports(c: seq<Entry>, i: nat, s: seq<Entry>, j: nat, i': nat, j': nat, x: Change)
    requires forall p: nat :: p >= i' ==> (DiffersAs(c, i, s, j, p, x.name) <==> DiffersAs(c, i', s, j', p, x.name))
    requires forall q: nat :: q >= j' ==> (GoneAs(c, i, s, j, q, x.name) <==> GoneAs(c, i', s, j', q, x.name))
    ensures Reports(c, i', s, j', x) ==> Reports(c, i, s, j, x)
    ensures Reports(c, i, s, j, x) ==> (
      || Reports(c, i', s, j', x)
      || (x.code == 1 && exists p: nat :: p < i' && DiffersAs(c, i, s, j, p, x.name))
      || (x.code == 3 && exists q: nat :: q < j' && GoneAs(c, i, s, j, q, x.name)))
  {
    if Reports(c, i', s, j', x) {
      if x.code == 1 {
        var p: nat :| DiffersAs(c, i', s, j', p, x.name);
        assert DiffersAs(c, i, s, j, p, x.name);
      } else {
        var q: nat :| GoneAs(c, i', s, j', q, x.name);
        assert GoneAs(c, i, s, j, q, x.name);
      }
    }
    if Reports(c, i, s, j, x) {
      if x.code == 1 {
        var p: nat :| DiffersAs(c, i, s, j, p, x.name);
        assert p >= i' ==> DiffersAs(c, i', s, j', p, x.name);
      } else {
        var q: nat :| GoneAs(c, i, s, j, q, x.name);
        assert q >= j' ==> GoneAs(c, i', s, j', q, x.name);
      }
    }
  }

  /** Only the server has the name of its entry j. */
  lemma ServerOnly(c: seq<Entry>, i: nat, s: seq<Entry>, j: nat, x: Change)
    requires i <= |c| && j < |s| && forall p :: i <= p < |c| ==> c[p].name != s[j].name
    ensures Reports(c, i, s, j, x) <==> x == Change(s[j].name, 3) || Reports(c, i, s, j + 1, x)
  {
    SameReports(c, i, s, j, i, j + 1, x);
    assert GoneAs(c, i, s, j, j, s[j].name);
  }

  /** Only the client has the name of its entry i. */
  lemma ClientOnly(c: seq<Entry>, i: nat, s: seq<Entry>, j: nat, x: Change)
    requires i < |c| && j <= |s| && forall q :: j <= q < |s| ==> s[q].name != c[i].name
    ensures Reports(c, i, s, j, x) <==> x == Change(c[i].name, 1) || Reports(c, i + 1, s, j, x)
  {
    SameReports(c, i, s, j, i + 1, j, x);
    assert DiffersAs(c, i, s, j, i, c[i].name);
  }

  /** Both have the name, and no later entry has. */
  lemma BothHave(c: seq<Entry>, i: nat, s: seq<Entry>, j: nat, x: Change)
    requires i < |c| && j < |s| && c[i].name == s[j].name
    requires forall p :: i < p < |c| ==> c[p].name != c[i].name
    requires forall q :: j < q < |s| ==> s[q].name != c[i].name
    ensures Reports(c, i, s, j, x) <==>
      (c[i].newhash != s[j].hash && x == Change(c[i].name, 1)) || Reports(c, i + 1, s, j + 1, x)
  {
    SameReports(c, i, s, j, i + 1, j + 1, x);
    assert c[i].newhash != s[j].hash ==> DiffersAs(c, i, s, j, i, c[i].name);
  }

  lemma LaterDiffer(es: seq<Entry>, i: nat)
    requires Sorted(es) && i < |es|
    ensures forall p :: i < p < |es| ==> Before(es[i].name, es[p].name) && es[p].name != es[i].name
  {
    forall p | i < p < |es| ensures Before(es[i].name, es[p].name) && es[p].name != es[i].name {
      NeverBeforeItself(es[i].name, es[p].name);
    }
  }

  lemma FirstOrRest<T>(x: T, y: T, rest: seq<T>)
    ensures x in [y] + rest <==> x == y || x in rest
  {
  }

  /** The merge from i and j on reports x exactly if it should. */
  ghost predicate Exact(c: seq<Entry>, i: nat, s: seq<Entry>, j: nat, x: Change)
    requires i <= |c| && j <= |s|
  {
    x in ChangesFrom(c, i, s, j) <==> Reports(c, i, s, j, x)
  }

  lemma ExactServer(c: seq<Entry>, i: nat, s: seq<Entry>, j: nat, x: Change)
    requires Sorted(c) && i <= |c| && j < |s| && Ahead(s[j].name, c, i) && Exact(c, i, s, j + 1, x)
    ensures Exact(c, i, s, j, x)
  {
    if i < |c| {
      NamesAhead(c, i, s[j].name);
    }
    ServerOnly(c, i, s, j, x);
    FirstOrRest(x, Change(s[j].name, 3), ChangesFrom(c, i, s, j + 1));
  }

  lemma ExactClient(c: seq<Entry>, i: nat, s: seq<Entry>, j: nat, x: Change)
    requires Sorted(s) && i < |c| && j <= |s| && Ahead(c[i].name, s, j) && Exact(c, i + 1, s, j, x)
    ensures Exact(c, i, s, j, x)
  {
    if j < |s| {
      NamesAhead(s, j, c[i].name);
      NeverBeforeItself(c[i].name, s[j].name);
    }
    ClientOnly(c, i, s, j, x);
    FirstOrRest(x, Change(c[i].name, 1), ChangesFrom(c, i + 1, s, j));
  }

  lemma ExactBoth(c: seq<Entry>, i: nat, s: seq<Entry>, j: nat, x: Change)
    requires Sorted(c) && Sorted(s) && i < |c| && j < |s| && c[i].name == s[j].name
    requires Exact(c, i + 1, s, j + 1, x)
    ensures Exact(c, i, s, j, x)
  {
    CmpIsOrder(c[i].name, s[j].name);
    LaterDiffer(c, i);
    LaterDiffer(s, j);
    BothHave(c, i, s, j, x);
    FirstOrRest(x, Change(c[i].name, 1), ChangesFrom(c, i + 1, s, j + 1));
  }

  /** The merge reports exactly the client's entries that differ, with code 1, and the
      server's entries that are gone, with code 3. */
  lemma {:induction false} MergeExact(c: seq<Entry>, i: nat, s: seq<Entry>, j: nat, x: Change)
    requires Sorted(c) && Sorted(s) && i <= |c| && j <= |s|
    ensures Exact(c, i, s, j, x)
    decreases |c| - i + |s| - j
  {
    if i == |c| && j == |s| {
    } else if i == |c| || (j < |s| && Before(s[j].name, c[i].name)) {
      MergeExact(c, i, s, j + 1, x);
      ExactServer(c, i, s, j, x);
    } else if j == |s| || Before(c[i].name, s[j].name) {
      MergeExact(c, i + 1, s, j, x);
      ExactClient(c, i, s, j, x);
    } else {
      CmpIsOrder(c[i].name, s[j].name);
      MergeExact(c, i + 1, s, j + 1, x);
      ExactBoth(c, i, s, j, x);
    }
  }

  ghost predicate Changed(c: seq<Entry>, s: seq<Entry>, name: seq<byte>) {
    exists p: nat :: DiffersAs(c, 0, s, 0, p, name)
  }

  ghost predicate Removed(c: seq<Entry>, s: seq<Entry>, name: seq<byte>) {
    exists q: nat :: GoneAs(c, 0, s, 0, q, name)
  }

  lemma ChangesExact(c: seq<Entry>, s: seq<Entry>, name: seq<byte>, code: int)
    requires Sorted(c) && Sorted(s)
    ensures Change(name, code) in Changes(c, s)
      <==> (code == 1 && Changed(c, s, name)) || (code == 3 && Removed(c, s, name))
  {
    MergeExact(c, 0, s, 0, Change(name, code));
  }

  /** A name comes before all entries still to be merged. */
  ghost predicate Ahead(name: seq<byte>, es: seq<Entry>, i: nat) {
    i < |es| ==> Before(name, es[i].name)
  }

  lemma AheadStays(name: seq<byte>, es: seq<Entry>, i: nat)
    requires Sorted(es) && i < |es| && (Before(name, es[i].name) || name == es[i].name)
    ensures Ahead(name, es, i + 1)
  {
    if i + 1 < |es| && Before(name, es[i].name) {
      CmpTransitive(name, es[i].name, es[i + 1].name);
    }
  }

  lemma MergeAhead(c: seq<Entry>, i: nat, s: seq<Entry>, j: nat, name: seq<byte>, x: Change)
    requires Sorted(c) && Sorted(s) && i <= |c| && j <= |s| && Ahead(name, c, i) && Ahead(name, s, j)
    requires x in ChangesFrom(c, i, s, j)
    ensures Before(name, x.name)
  {
    MergeExact(c, i, s, j, x);
    if x.code == 1 {
      var p: nat :| DiffersAs(c, i, s, j, p, x.name);
      NamesAhead(c, i, name);
    } else {
      var q: nat :| GoneAs(c, i, s, j, q, x.name);
      NamesAhead(s, j, name);
    }
  }

  lemma OneMoreInOrder(x: Change, rest: seq<Change>)
    requires SortedChanges(rest) && forall y :: y in rest ==> Before(x.name, y.name)
    ensures SortedChanges([x] + rest)
  {
    var l := [x] + rest;
    forall i, k | 0 <= i < k < |l| ensures Before(l[i].name, l[k].name) {
      if i > 0 {
        assert Before(rest[i - 1].name, rest[k - 1].name);
      } else {
        assert rest[k - 1] in rest;
      }
    }
  }

  lemma FirstReported(x: Change, c: seq<Entry>, i: nat, s: seq<Entry>, j: nat)
    requires Sorted(c) && Sorted(s) && i <= |c| && j <= |s|
    requires Ahead(x.name, c, i) && Ahead(x.name, s, j) && SortedChanges(ChangesFrom(c, i, s, j))
    ensures SortedChanges([x] + ChangesFrom(c, i, s, j))
  {
    forall y | y in ChangesFrom(c, i, s, j) ensures Before(x.name, y.name) {
      MergeAhead(c, i, s, j, x.name, y);
    }
    OneMoreInOrder(x, ChangesFrom(c, i, s, j));
  }

  lemma ServerFirst(c: seq<Entry>, i: nat, s: seq<Entry>, j: nat)
    requires Sorted(c) && Sorted(s) && i <= |c| && j < |s| && Ahead(s[j].name, c, i)
    requires SortedChanges(ChangesFrom(c, i, s, j + 1))
    ensures SortedChanges(ChangesFrom(c, i, s, j))
  {
    AheadStays(s[j].name, s, j);
    FirstReported(Change(s[j].name, 3), c, i, s, j + 1);
  }

  lemma ClientFirst(c: seq<Entry>, i: nat, s: seq<Entry>, j: nat)
    requires Sorted(c) && Sorted(s) && i < |c| && j <= |s| && Ahead(c[i].name, s, j)
    requires SortedChanges(ChangesFrom(c, i + 1, s, j))
    ensures SortedChanges([Change(c[i].name, 1)] + ChangesFrom(c, i + 1, s, j))
  {
    AheadStays(c[i].name, c, i);
    FirstReported(Change(c[i].name, 1), c, i + 1, s, j);
  }

  /** What is reported comes in order. */
  lemma {:induction false} MergeSorted(c: seq<Entry>, i: nat, s: seq<Entry>, j: nat)
    requires Sorted(c) && Sorted(s) && i <= |c| && j <= |s|
    ensures SortedChanges(ChangesFrom(c, i, s, j))
    decreases |c| - i + |s| - j
  {
    if i == |c| && j == |s| {
    } else if i == |c| || (j < |s| && Before(s[j].name, c[i].name)) {
      MergeSorted(c, i, s, j + 1);
      ServerFirst(c, i, s, j);
    } else if j == |s| || Before(c[i].name, s[j].name) {
      MergeSorted(c, i + 1, s, j);
      ClientFirst(c, i, s, j);
    } else {
      CmpIsOrder(c[i].name, s[j].name);
      AheadStays(c[i].name, s, j);
      MergeSorted(c, i + 1, s, j + 1);
      ClientFirst(c, i, s, j + 1);
    }
  }

  // ---------- Change list and conflicts ----------

  /** What goes to the change list: everything for a commit, and otherwise the uploads. */
  function Logged(l: seq<Change>, isCommit: bool): seq<Change> {
    if l == [] then []
    else
      var n := |l| - 1;
      Logged(l[..n], isCommit) + if isCommit || l[n].code == 1 then [l[n]] else []
  }

  /** Outside a commit, a file that only the server has is a conflict, with code 5. */
  function Conflicting(l: seq<Change>, isCommit: bool): seq<Change> {
    if l == [] then []
    else
      var n := |l| - 1;
      Conflicting(l[..n], isCommit) + if isCommit || l[n].code == 1 then [] else [Change(l[n].name, 5)]
  }

  lemma LoggedMore(l: seq<Change>, x: Change, isCommit: bool)
    ensures Logged(l + [x], isCommit) == Logged(l, isCommit) + if isCommit || x.code == 1 then [x] else []
    ensures Conflicting(l + [x], isCommit)
      == Conflicting(l, isCommit) + if isCommit || x.code == 1 then [] else [Change(x.name, 5)]
  {
    assert (l + [x])[..|l|] == l;
  }

  /** A commit logs everything and has no conflicts. */
  lemma {:induction false} CommitLogsAll(l: seq<Change>)
    ensures Logged(l, true) == l && Conflicting(l, true) == []
  {
    if l != [] {
      var n := |l| - 1;
      CommitLogsAll(l[..n]);
      assert l == l[..n] + [l[n]];
    }
  }

  lemma {:induction false} UpdateSplits(l: seq<Change>, name: seq<byte>, code: int)
    ensures Change(name, code) in Logged(l, false) <==> code == 1 && Change(name, 1) in l
    ensures Change(name, code) in Conflicting(l, false) <==> code == 5 && exists x :: x in l && x.code != 1 && x.name == name
  {
    if l != [] {
      var n := |l| - 1;
      UpdateSplits(l[..n], name, code);
      assert l == l[..n] + [l[n]];
    }
  }

  /** Outside a commit, at equal versions, uploads are exactly the client's new or changed
      files, and conflicts exactly the files that only the server has. */
  lemma UpdateExact(c: seq<Entry>, s: seq<Entry>, name: seq<byte>, code: int)
    requires Sorted(c) && Sorted(s)
    ensures Change(name, code) in Logged(Changes(c, s), false) <==> code == 1 && Changed(c, s, name)
    ensures Change(name, code) in Conflicting(Changes(c, s), false) <==> code == 5 && Removed(c, s, name)
  {
    var l := Changes(c, s);
    UpdateSplits(l, name, code);
    ChangesExact(c, s, name, 1);
    ChangesExact(c, s, name, 3);
    forall x | x in l && x.code != 1 && x.name == name ensures x == Change(name, 3) {
      ChangesExact(c, s, name, x.code);
    }
  }

  // ---------- The comparison in place ----------

  /** The items of a list, marked with their codes. */
  ghost predicate Marked(list: seq<Item>, l: seq<Change>)
    reads list
  {
    |list| == |l| && forall k :: 0 <= k < |l| ==> Change(list[k].filename, list[k].changecode) == l[k]
  }

  /** The two lists a comparison builds. */
  datatype Lists = Lists(changelog: seq<Item>, conflicts: seq<Item>)

  ghost predicate Listed(lists: Lists, l: seq<Change>, isCommit: bool)
    reads lists.changelog, lists.conflicts
  {
    Marked(lists.changelog, Logged(l, isCommit)) && Marked(lists.conflicts, Conflicting(l, isCommit))
  }

  ghost predicate AllBefore(l: seq<Change>, name: seq<byte>) {
    forall k :: 0 <= k < |l| ==> Before(l[k].name, name)
  }

  lemma {:induction false} PartsBefore(l: seq<Change>, isCommit: bool, name: seq<byte>)
    requires AllBefore(l, name)
    ensures AllBefore(Logged(l, isCommit), name) && AllBefore(Conflicting(l, isCommit), name)
  {
    if l != [] {
      PartsBefore(l[..|l| - 1], isCommit, name);
    }
  }

  lemma NotListed(list: seq<Item>, l: seq<Change>, item: Item)
    requires Marked(list, l) && AllBefore(l, item.filename)
    ensures item !in list
  {
    forall k | 0 <= k < |l| ensures list[k] != item {
      NeverBeforeItself(l[k].name, item.filename);
    }
  }

  /** Puts an item with its code at the end of a list; another list stays as it is. */
  method Append(list: seq<Item>, item: Item, code: int, ghost l: seq<Change>, ghost other: seq<Item>, ghost lo: seq<Change>)
    returns (list': seq<Item>)
    requires Marked(list, l) && Marked(other, lo) && item !in list && item !in other
    modifies item`changecode
    ensures Marked(list', l + [Change(item.filename, code)]) && Marked(other, lo)
    ensures list' == list + [item]
  {
    item.changecode := code;
    list' := list + [item];
  }

  /** Puts an item into one of the lists, with its code. */
  method Mark(lists: Lists, item: Item, code: int, ghost l: seq<Change>, isCommit: bool) returns (lists': Lists)
    requires Listed(lists, l, isCommit) && AllBefore(l, item.filename) && (code == 1 || code == 3)
    modifies item`changecode
    ensures Listed(lists', l + [Change(item.filename, code)], isCommit)
    ensures lists' == if isCommit || code == 1 then lists.(changelog := lists.changelog + [item])
                      else lists.(conflicts := lists.conflicts + [item])
  {
    ghost var logged, conflicting := Logged(l, isCommit), Conflicting(l, isCommit);
    PartsBefore(l, isCommit, item.filename);
    NotListed(lists.changelog, logged, item);
    NotListed(lists.conflicts, conflicting, item);
    LoggedMore(l, Change(item.filename, code), isCommit);
    if isCommit || code == 1 {
      var changelog := Append(lists.changelog, item, code, logged, lists.conflicts, conflicting);
      assert conflicting + [] == conflicting;
      lists' := lists.(changelog := changelog);
    } else {
      var conflicts := Append(lists.conflicts, item, 5, conflicting, lists.changelog, logged);
      assert logged + [] == logged;
      lists' := lists.(conflicts := conflicts);
    }
  }

  /** Everything reported so far comes before what is still to be merged. */
  ghost predicate ReportedBefore(l: seq<Change>, es: seq<Entry>, i: nat) {
    i < |es| ==> AllBefore(l, es[i].name)
  }

  lemma ReportedMore(l: seq<Change>, es: seq<Entry>, i: nat, x: Change)
    requires ReportedBefore(l, es, i) && Ahead(x.name, es, i)
    ensures ReportedBefore(l + [x], es, i)
  {
  }

  lemma ReportedNext(l: seq<Change>, es: seq<Entry>, i: nat)
    requires Sorted(es) && i < |es| && ReportedBefore(l, es, i)
    ensures ReportedBefore(l, es, i + 1)
  {
    forall k | 0 <= k < |l| && i + 1 < |es| ensures Before(l[k].name, es[i + 1].name) {
      CmpTransitive(l[k].name, es[i].name, es[i + 1].name);
    }
  }

  /** The next change is the one at the front of what is still to be reported. */
  ghost predicate ToDo(l: seq<Change>, c: seq<Entry>, i: nat, s: seq<Entry>, j: nat) {
    i <= |c| && j <= |s| && l + ChangesFrom(c, i, s, j) == Changes(c, s)
  }

  lemma ToDoReported(l: seq<Change>, c: seq<Entry>, i: nat, s: seq<Entry>, j: nat, x: Change, i': nat, j': nat)
    requires ToDo(l, c, i, s, j) && i' <= |c| && j' <= |s|
    requires ChangesFrom(c, i, s, j) == [x] + ChangesFrom(c, i', s, j')
    ensures ToDo(l + [x], c, i', s, j')
  {
    Associative(l, [x], ChangesFrom(c, i', s, j'));
  }

  /** l has been reported when the merge has come to i and j. */
  ghost predicate Course(l: seq<Change>, c: seq<Entry>, i: nat, s: seq<Entry>, j: nat) {
    ToDo(l, c, i, s, j) && ReportedBefore(l, c, i) && ReportedBefore(l, s, j)
  }

  ghost predicate Stage(lists: Lists, l: seq<Change>, isCommit: bool, c: seq<Entry>, i: nat, s: seq<Entry>, j: nat)
    reads lists.changelog, lists.conflicts
  {
    Listed(lists, l, isCommit) && Course(l, c, i, s, j)
  }

  lemma ServerCourse(l: seq<Change>, c: seq<Entry>, i: nat, s: seq<Entry>, j: nat)
    requires Sorted(c) && Sorted(s) && Course(l, c, i, s, j) && j < |s| && Ahead(s[j].name, c, i)
    ensures Course(l + [Change(s[j].name, 3)], c, i, s, j + 1)
  {
    var x := Change(s[j].name, 3);
    AheadStays(s[j].name, s, j);
    ReportedNext(l, s, j);
    ReportedMore(l, s, j + 1, x);
    ReportedMore(l, c, i, x);
    ToDoReported(l, c, i, s, j, x, i, j + 1);
  }

  lemma ClientCourse(l: seq<Change>, c: seq<Entry>, i: nat, s: seq<Entry>, j: nat, j': nat)
    requires Sorted(c) && Sorted(s) && Course(l, c, i, s, j) && i < |c| && j' <= |s|
    requires if j' == j then Ahead(c[i].name, s, j)
             else j' == j + 1 && c[i].name == s[j].name && c[i].newhash != s[j].hash
    ensures Course(l + [Change(c[i].name, 1)], c, i + 1, s, j')
  {
    var x := Change(c[i].name, 1);
    AheadStays(c[i].name, c, i);
    ReportedNext(l, c, i);
    ReportedMore(l, c, i + 1, x);
    if j < |s| {
      CmpIsOrder(c[i].name, s[j].name);
    }
    if j' > j {
      AheadStays(c[i].name, s, j);
      ReportedNext(l, s, j);
    }
    ReportedMore(l, s, j', x);
    ToDoReported(l, c, i, s, j, x, i + 1, j');
  }

  /** A file that only the server has. */
  method TakeServer(lists: Lists, item: Item, isCommit: bool, ghost l: seq<Change>,
                    ghost c: seq<Entry>, ghost i: nat, ghost s: seq<Entry>, ghost j: nat)
    returns (lists': Lists, ghost l': seq<Change>)
    requires Sorted(c) && Sorted(s) && Stage(lists, l, isCommit, c, i, s, j)
    requires j < |s| && s[j].name == item.filename && Ahead(s[j].name, c, i)
    modifies item`changecode
    ensures Stage(lists', l', isCommit, c, i, s, j + 1)
  {
    ServerCourse(l, c, i, s, j);
    lists' := Mark(lists, item, 3, l, isCommit);
    l' := l + [Change(s[j].name, 3)];
  }

  /** A file that only the client has, or has changed: j' skips the server's entry for it. */
  method TakeClient(lists: Lists, item: Item, isCommit: bool, ghost l: seq<Change>,
                    ghost c: seq<Entry>, ghost i: nat, ghost s: seq<Entry>, ghost j: nat, ghost j': nat)
    returns (lists': Lists, ghost l': seq<Change>)
    requires Sorted(c) && Sorted(s) && Stage(lists, l, isCommit, c, i, s, j)
    requires i < |c| && c[i].name == item.filename && j' <= |s|
    requires if j' == j then Ahead(c[i].name, s, j)
             else j' == j + 1 && c[i].name == s[j].name && c[i].newhash != s[j].hash
    modifies item`changecode
    ensures Stage(lists', l', isCommit, c, i + 1, s, j')
  {
    ClientCourse(l, c, i, s, j, j');
    lists' := Mark(lists, item, 1, l, isCommit);
    l' := l + [Change(c[i].name, 1)];
  }

  lemma TakeNone(l: seq<Change>, c: seq<Entry>, i: nat, s: seq<Entry>, j: nat)
    requires Sorted(c) && Sorted(s) && Course(l, c, i, s, j)
    requires i < |c| && j < |s| && c[i].name == s[j].name && c[i].newhash == s[j].hash
    ensures Course(l, c, i + 1, s, j + 1)
  {
    CmpIsOrder(c[i].name, s[j].name);
    ReportedNext(l, c, i);
    ReportedNext(l, s, j);
  }

  lemma AllReported(l: seq<Change>, c: seq<Entry>, s: seq<Entry>)
    requires ToDo(l, c, |c|, s, |s|)
    ensures l == Changes(c, s)
  {
  }

  /** One turn of the merge loop. */
  method CompareNext(client: seq<Item>, i: nat, server: seq<Item>, j: nat, isCommit: bool, lists: Lists,
                     ghost l: seq<Change>, ghost c: seq<Entry>, ghost s: seq<Entry>)
    returns (i': nat, j': nat, lists': Lists, ghost l': seq<Change>)
    requires i < |client| && j < |server| && c == Entries(client) && s == Entries(server)
    requires Sorted(c) && Sorted(s) && Stage(lists, l, isCommit, c, i, s, j)
    modifies {client[i], server[j]}`changecode
    ensures Stage(lists', l', isCommit, c, i', s, j') && c == Entries(client) && s == Entries(server)
    ensures i <= i' <= i + 1 && j <= j' <= j + 1 && i' + j' > i + j
  {
    i', j', lists', l' := i, j, lists, l;
    CmpIsOrder(client[i].filename, server[j].filename);
    if CmpCompare(client[i].filename, server[j].filename) > 0 {
      lists', l' := TakeServer(lists, server[j], isCommit, l, c, i, s, j);
      j' := j + 1;
    } else if CmpCompare(client[i].filename, server[j].filename) < 0 {
      lists', l' := TakeClient(lists, client[i], isCommit, l, c, i, s, j, j);
      i' := i + 1;
    } else {
      if client[i].newhash != server[j].hash {
        lists', l' := TakeClient(lists, client[i], isCommit, l, c, i, s, j, j + 1);
      } else {
        TakeNone(l, c, i, s, j);
      }
      i', j' := i + 1, j + 1;
    }
  }

  /** When the server's entries are used up: all remaining files of the client. */
  method RestOfClient(client: seq<Item>, i0: nat, isCommit: bool, lists0: Lists,
                      ghost l0: seq<Change>, ghost c: seq<Entry>, ghost s: seq<Entry>)
    returns (lists: Lists, ghost l: seq<Change>)
    requires i0 <= |client| && c == Entries(client) && Sorted(c) && Sorted(s)
    requires Stage(lists0, l0, isCommit, c, i0, s, |s|)
    modifies (set x | x in client)`changecode
    ensures Stage(lists, l, isCommit, c, |c|, s, |s|)
  {
    lists, l := lists0, l0;
    var i := i0;
    while i < |client|
      invariant i0 <= i <= |client| && Stage(lists, l, isCommit, c, i, s, |s|) && c == Entries(client)
    {
      lists, l := TakeClient(lists, client[i], isCommit, l, c, i, s, |s|, |s|);
      i := i + 1;
    }
  }

  /** When the client's entries are used up: all remaining files of the server. */
  method RestOfServer(server: seq<Item>, j0: nat, isCommit: bool, lists0: Lists,
                      ghost l0: seq<Change>, ghost c: seq<Entry>, ghost s: seq<Entry>)
    returns (lists: Lists, ghost l: seq<Change>)
    requires j0 <= |server| && s == Entries(server) && Sorted(c) && Sorted(s)
    requires Stage(lists0, l0, isCommit, c, |c|, s, j0)
    modifies (set x | x in server)`changecode
    ensures Stage(lists, l, isCommit, c, |c|, s, |s|)
  {
    lists, l := lists0, l0;
    var j := j0;
    while j < |server|
      invariant j0 <= j <= |server| && Stage(lists, l, isCommit, c, |c|, s, j) && s == Entries(server)
    {
      lists, l := TakeServer(lists, server[j], isCommit, l, c, |c|, s, j);
      j := j + 1;
    }
  }

  /** The merge loop, until one of the manifests is used up. */
  method CompareBoth(client: seq<Item>, server: seq<Item>, isCommit: bool, ghost c: seq<Entry>, ghost s: seq<Entry>)
    returns (i: nat, j: nat, lists: Lists, ghost l: seq<Change>)
    requires c == Entries(client) && s == Entries(server) && Sorted(c) && Sorted(s)
    modifies (set x | x in client + server)`changecode
    ensures i <= |client| && j <= |server| && (i == |client| || j == |server|)
    ensures Stage(lists, l, isCommit, c, i, s, j) && c == Entries(client) && s == Entries(server)
  {
    i, j, lists, l := 0, 0, Lists([], []), [];
    while i < |client| && j < |server|
      invariant i <= |client| && j <= |server| && Stage(lists, l, isCommit, c, i, s, j)
      invariant c == Entries(client) && s == Entries(server)
      decreases |client| - i + |server| - j
    {
      i, j, lists, l := CompareNext(client, i, server, j, isCommit, lists, l, c, s);
    }
  }

  /** compareManifest with two manifests of equal versions: the lists hold the items of the
      merge, marked with their codes. The result is -9 if there are conflicts and else 0. */
  method CompareManifest(client: seq<Item>, server: seq<Item>, isCommit: bool) returns (status: int, lists: Lists)
    requires Sorted(Entries(client)) && Sorted(Entries(server))
    modifies (set x | x in client + server)`changecode
    ensures Listed(lists, Changes(old(Entries(client)), old(Entries(server))), isCommit)
    ensures status == if lists.conflicts == [] then 0 else -9
    ensures Entries(client) == old(Entries(client)) && Entries(server) == old(Entries(server))
  {
    ghost var c, s, l: seq<Change> := Entries(client), Entries(server), [];
    var i, j: nat;
    i, j, lists, l := CompareBoth(client, server, isCommit, c, s);
    if i < |client| {
      lists, l := RestOfClient(client, i, isCommit, lists, l, c, s);
    } else {
      lists, l := RestOfServer(server, j, isCommit, lists, l, c, s);
    }
    assert Entries(client) == c && Entries(server) == s;
    AllReported(l, c, s);
    status := if lists.conflicts == [] then 0 else -9;
  }

  /** For a commit there are no conflicts, and the change list is the whole merge. */
  method CompareForCommit(client: seq<Item>, server: seq<Item>) returns (changelog: seq<Item>)
    requires Sorted(Entries(client)) && Sorted(Entries(server))
    modifies (set x | x in client + server)`changecode
    ensures Marked(changelog, Changes(old(Entries(client)), old(Entries(server))))
    ensures Entries(client) == old(Entries(client)) && Entries(server) == old(Entries(server))
  {
    CommitLogsAll(Changes(Entries(client), Entries(server)));
    var status, lists := CompareManifest(client, server, true);
    changelog := lists.changelog;
  }
}
