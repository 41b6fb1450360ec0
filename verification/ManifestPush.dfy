/** Applying a change list to the client's manifest before a push, and why afterwards there is
    nothing left to commit (proecessManifest_ByChangelist_Push in Asst3/common/util.c). */
module ManifestPush {
  import opened CTypes
  import opened ManifestItems
  import opened ManifestCompare

  /** The change list asks for this file to be stored. */
  ghost predicate Uploads(l: seq<Change>, name: seq<byte>) {
    Change(name, 1) in l
  }

  /** A file after the push: its hash is that of the working file, and its version is one
      higher if it was to be stored. */
  ghost function PushedEntry(e: Entry, l: seq<Change>): Entry {
    Entry(e.name, if Uploads(l, e.name) then e.version + 1 else e.version, e.newhash, e.newhash)
  }

  ghost predicate IsPushed(c: seq<Entry>, l: seq<Change>, c': seq<Entry>) {
    |c'| == |c| && forall p :: 0 <= p < |c| ==> c'[p] == PushedEntry(c[p], l)
  }

  /** Changes to be stored that name a file behind the last one would be compared with
      memory behind the list. */
  ghost predicate WithinReach(c: seq<Entry>, l: seq<Change>) {
    forall t :: 0 <= t < |l| && l[t].code == 1 ==> c != [] && !Before(c[|c| - 1].name, l[t].name)
  }

  ghost predicate CodesOk(l: seq<Change>) {
    forall t :: 0 <= t < |l| ==> l[t].code == 1 || l[t].code == 3
  }

  // ---------- The loop over the change list ----------

  /** The items before m are done, those from m on are as they were. */
  ghost predicate DoneUpTo(items: seq<Item>, c: seq<Entry>, l: seq<Change>, m: nat)
    reads items
  {
    && |items| == |c| && m <= |c|
    && (forall p :: 0 <= p < m ==> EntryOf(items[p]) == PushedEntry(c[p], l))
    && (forall p :: m <= p < |c| ==> EntryOf(items[p]) == c[p])
  }

  /** No upload among the first `temp` changes concerns an item from m on. */
  ghost predicate Passed(c: seq<Entry>, l: seq<Change>, temp: nat, m: nat) {
    forall t :: 0 <= t < temp <= |l| && l[t].code == 1 && m < |c| ==> Before(l[t].name, c[m].name)
  }

  /** The items taken over so far come before the next change. */
  ghost predicate Trails(c: seq<Entry>, l: seq<Change>, temp: nat, m: nat) {
    0 < m <= |c| && temp < |l| ==> Before(c[m - 1].name, l[temp].name)
  }

  lemma TrailsNext(c: seq<Entry>, l: seq<Change>, temp: nat, m: nat)
    requires SortedChanges(l) && temp < |l|
    requires 0 < m <= |c| ==> Before(c[m - 1].name, l[temp].name) || c[m - 1].name == l[temp].name
    ensures Trails(c, l, temp + 1, m)
  {
    if 0 < m <= |c| && temp + 1 < |l| && c[m - 1].name != l[temp].name {
      CmpTransitive(c[m - 1].name, l[temp].name, l[temp + 1].name);
    }
  }

  lemma PassedNext(c: seq<Entry>, l: seq<Change>, temp: nat, m: nat)
    requires Sorted(c) && Passed(c, l, temp, m) && m < |c|
    ensures Passed(c, l, temp, m + 1)
  {
    forall t | 0 <= t < temp <= |l| && l[t].code == 1 && m + 1 < |c| ensures Before(l[t].name, c[m + 1].name) {
      CmpTransitive(l[t].name, c[m].name, c[m + 1].name);
    }
  }

  /** An item before the next change, and behind all earlier uploads, is not uploaded. */
  lemma NotUploaded(c: seq<Entry>, l: seq<Change>, temp: nat, m: nat)
    requires SortedChanges(l) && Passed(c, l, temp, m) && m < |c| && temp <= |l|
    requires temp < |l| ==> Before(c[m].name, l[temp].name)
    ensures !Uploads(l, c[m].name)
  {
    forall t | 0 <= t < |l| ensures l[t] != Change(c[m].name, 1) {
      if t < temp {
        if l[t].code == 1 {
          NeverBeforeItself(l[t].name, c[m].name);
        }
      } else {
        if t > temp {
          CmpTransitive(c[m].name, l[temp].name, l[t].name);
        }
        NeverBeforeItself(c[m].name, l[t].name);
      }
    }
  }

  lemma DistinctItems(items: seq<Item>, c: seq<Entry>, l: seq<Change>, m: nat, p: nat)
    requires Sorted(c) && DoneUpTo(items, c, l, m) && m < |c| && p < |c| && p != m
    ensures items[p] != items[m]
  {
    if p < m {
      NeverBeforeItself(c[p].name, c[m].name);
    } else {
      NeverBeforeItself(c[m].name, c[p].name);
    }
  }

  /** Takes the next item over with its new hash, and counts its version up if it is to be
      stored. */
  method TakeItem(items: seq<Item>, m: nat, upload: bool, newManifest: seq<Item>, ghost c: seq<Entry>, ghost l: seq<Change>)
    returns (newManifest': seq<Item>)
    requires Sorted(c) && DoneUpTo(items, c, l, m) && m < |items| && upload == Uploads(l, c[m].name)
    requires newManifest == items[..m]
    modifies {items[m]}`hash, {items[m]}`versionNum
    ensures DoneUpTo(items, c, l, m + 1) && newManifest' == items[..m + 1]
  {
    forall p | 0 <= p < |items| && p != m ensures items[p] != items[m] {
      DistinctItems(items, c, l, m, p);
    }
    newManifest' := newManifest + [items[m]];
    items[m].hash := items[m].newhash;
    if upload {
      items[m].versionNum := items[m].versionNum + 1;
    }
  }

  /** Takes over an item that comes before the next change. */
  method TakeUnlisted(items: seq<Item>, m: nat, newManifest: seq<Item>,
                      ghost temp: nat, ghost c: seq<Entry>, ghost l: seq<Change>)
    returns (newManifest': seq<Item>)
    requires Sorted(c) && SortedChanges(l) && DoneUpTo(items, c, l, m) && m < |items|
    requires temp <= |l| && Passed(c, l, temp, m) && newManifest == items[..m]
    requires temp < |l| ==> Before(c[m].name, l[temp].name)
    modifies {items[m]}`hash, {items[m]}`versionNum
    ensures DoneUpTo(items, c, l, m + 1) && newManifest' == items[..m + 1]
    ensures Passed(c, l, temp, m + 1) && Trails(c, l, temp, m + 1)
  {
    NotUploaded(c, l, temp, m);
    PassedNext(c, l, temp, m);
    newManifest' := TakeItem(items, m, false, newManifest, c, l);
  }

  /** Takes over the items before the given name, or all remaining ones. */
  method TakeItemsBefore(items: seq<Item>, m0: nat, limit: Option<seq<byte>>, newManifest0: seq<Item>,
                         ghost temp: nat, ghost c: seq<Entry>, ghost l: seq<Change>)
    returns (m: nat, newManifest: seq<Item>)
    requires Sorted(c) && SortedChanges(l) && DoneUpTo(items, c, l, m0) && temp <= |l| && Passed(c, l, temp, m0)
    requires if limit.Some? then temp < |l| && limit.value == l[temp].name else temp == |l|
    requires newManifest0 == items[..m0] && Trails(c, l, temp, m0)
    modifies (set x | x in items)`hash, (set x | x in items)`versionNum
    ensures m0 <= m && DoneUpTo(items, c, l, m) && Passed(c, l, temp, m) && newManifest == items[..m]
    ensures m < |items| ==> limit.Some? && !Before(c[m].name, limit.value)
    ensures Trails(c, l, temp, m)
  {
    m, newManifest := m0, newManifest0;
    while m < |items| && (limit.None? || CmpCompare(items[m].filename, limit.value) < 0)
      invariant m0 <= m <= |items| && DoneUpTo(items, c, l, m) && Passed(c, l, temp, m)
      invariant newManifest == items[..m]
      invariant Trails(c, l, temp, m)
    {
      newManifest := TakeUnlisted(items, m, newManifest, temp, c, l);
      m := m + 1;
    }
  }

  lemma PassedMatch(c: seq<Entry>, l: seq<Change>, temp: nat, m: nat)
    requires Sorted(c) && Passed(c, l, temp, m) && temp < |l| && m < |c|
    requires l[temp].name == c[m].name
    ensures Passed(c, l, temp + 1, m + 1)
  {
    PassedNext(c, l, temp, m);
  }

  lemma PassedMiss(c: seq<Entry>, l: seq<Change>, temp: nat, m: nat)
    requires Passed(c, l, temp, m) && temp < |l| && m < |c|
    requires l[temp].name != c[m].name && !Before(c[m].name, l[temp].name)
    ensures Passed(c, l, temp + 1, m)
  {
    CmpIsOrder(c[m].name, l[temp].name);
  }

  /** One upload of the change list. */
  method TakeUpload(items: seq<Item>, m0: nat, change: Item, newManifest0: seq<Item>,
                    ghost temp: nat, ghost c: seq<Entry>, ghost l: seq<Change>)
    returns (m: nat, newManifest: seq<Item>)
    requires Sorted(c) && SortedChanges(l) && DoneUpTo(items, c, l, m0) && Passed(c, l, temp, m0)
    requires temp < |l| && l[temp].code == 1 && WithinReach(c, l) && Trails(c, l, temp, m0)
    requires l[temp] == Change(change.filename, change.changecode) && newManifest0 == items[..m0]
    modifies (set x | x in items)`hash, (set x | x in items)`versionNum
    ensures DoneUpTo(items, c, l, m) && Passed(c, l, temp + 1, m) && newManifest == items[..m]
    ensures Trails(c, l, temp + 1, m)
  {
    m, newManifest := TakeItemsBefore(items, m0, Some(change.filename), newManifest0, temp, c, l);
    assert m < |items|;
    CmpIsOrder(c[m].name, change.filename);
    if CmpCompare(items[m].filename, change.filename) == 0 {
      PassedMatch(c, l, temp, m);
      newManifest := TakeItem(items, m, true, newManifest, c, l);
      m := m + 1;
    } else {
      PassedMiss(c, l, temp, m);
    }
    TrailsNext(c, l, temp, m);
  }

  /** One change of the list: removals are skipped. */
  method TakeChange(items: seq<Item>, m0: nat, change: Item, newManifest0: seq<Item>,
                    ghost temp: nat, ghost c: seq<Entry>, ghost l: seq<Change>)
    returns (m: nat, newManifest: seq<Item>)
    requires Sorted(c) && SortedChanges(l) && DoneUpTo(items, c, l, m0) && Passed(c, l, temp, m0)
    requires temp < |l| && CodesOk(l) && WithinReach(c, l) && Trails(c, l, temp, m0)
    requires l[temp] == Change(change.filename, change.changecode) && newManifest0 == items[..m0]
    modifies (set x | x in items)`hash, (set x | x in items)`versionNum
    ensures DoneUpTo(items, c, l, m) && Passed(c, l, temp + 1, m) && newManifest == items[..m]
    ensures Trails(c, l, temp + 1, m)
  {
    if change.changecode == 3 {
      m, newManifest := m0, newManifest0;
      TrailsNext(c, l, temp, m);
    } else {
      m, newManifest := TakeUpload(items, m0, change, newManifest0, temp, c, l);
    }
  }

  method TakeAll(items: seq<Item>, changelist: seq<Item>, ghost c: seq<Entry>, ghost l: seq<Change>)
    returns (newManifest: seq<Item>)
    requires c == Entries(items) && Sorted(c) && Marked(changelist, l) && SortedChanges(l) && CodesOk(l) && WithinReach(c, l)
    modifies (set x | x in items)`hash, (set x | x in items)`versionNum
    ensures newManifest == items && DoneUpTo(items, c, l, |c|)
  {
    var m: nat, temp := 0, 0;
    newManifest := [];
    while temp < |changelist|
      invariant temp <= |changelist| && DoneUpTo(items, c, l, m) && Passed(c, l, temp, m)
      invariant Trails(c, l, temp, m) && newManifest == items[..m] && Marked(changelist, l)
    {
      m, newManifest := TakeChange(items, m, changelist[temp], newManifest, temp, c, l);
      temp := temp + 1;
    }
    m, newManifest := TakeItemsBefore(items, m, None, newManifest, |l|, c, l);
  }

  class ProjectManifest {
    var items: seq<Item>
    var version: int

    constructor (items: seq<Item>, version: int)
      ensures this.items == items && this.version == version
    {
      this.items, this.version := items, version;
    }

    /** proecessManifest_ByChangelist_Push for a change list of uploads and removals: every
        item stays where it is, takes the hash of the working file, and moves to the next
        version exactly if the list says so. */
    method ProcessPush(changelist: seq<Item>, ghost l: seq<Change>)
      requires Sorted(Entries(items)) && Marked(changelist, l) && SortedChanges(l) && CodesOk(l)
      requires WithinReach(Entries(items), l)
      modifies this, (set x | x in items)`hash, (set x | x in items)`versionNum
      ensures version == old(version) + 1 && items == old(items)
      ensures IsPushed(old(Entries(items)), l, Entries(items))
    {
      version := version + 1;
      ghost var c := Entries(items);
      items := TakeAll(items, changelist, c, l);
    }
  }

  // ---------- Nothing is left to commit ----------

  lemma CodesOfChanges(c: seq<Entry>, s: seq<Entry>)
    requires Sorted(c) && Sorted(s)
    ensures CodesOk(Changes(c, s)) && WithinReach(c, Changes(c, s))
  {
    var l := Changes(c, s);
    forall t | 0 <= t < |l|
      ensures l[t].code == 1 || l[t].code == 3
      ensures l[t].code == 1 ==> c != [] && !Before(c[|c| - 1].name, l[t].name)
    {
      assert l[t] in l;
      ChangesExact(c, s, l[t].name, l[t].code);
      if l[t].code == 1 {
        var p: nat :| DiffersAs(c, 0, s, 0, p, l[t].name);
        CmpIsOrder(c[p].name, c[|c| - 1].name);
        assert p < |c| - 1 ==> Before(c[p].name, c[|c| - 1].name);
      }
    }
  }

  /** Two manifests between which a comparison finds nothing: the same files, and each has
      the hash that is stored for it. */
  ghost predicate InStep(c: seq<Entry>, s: seq<Entry>) {
    |c| == |s| && forall p :: 0 <= p < |c| ==> c[p].name == s[p].name && c[p].newhash == s[p].hash
  }

  lemma {:induction false} NothingFrom(c: seq<Entry>, s: seq<Entry>, i: nat)
    requires InStep(c, s) && i <= |c|
    ensures ChangesFrom(c, i, s, i) == []
    decreases |c| - i
  {
    if i < |c| {
      CmpIsOrder(c[i].name, s[i].name);
      NothingFrom(c, s, i + 1);
    }
  }

  lemma {:induction false} InStepFrom(c: seq<Entry>, s: seq<Entry>, i: nat)
    requires i <= |c| && i <= |s| && ChangesFrom(c, i, s, i) == []
    ensures |c| == |s| && forall p :: i <= p < |c| ==> c[p].name == s[p].name && c[p].newhash == s[p].hash
    decreases |c| - i
  {
    if i < |c| && i < |s| {
      CmpIsOrder(c[i].name, s[i].name);
      InStepFrom(c, s, i + 1);
    }
  }

  /** A comparison finds nothing if and only if the manifests are in step. */
  lemma NothingToCommitIff(c: seq<Entry>, s: seq<Entry>)
    ensures Changes(c, s) == [] <==> InStep(c, s)
  {
    if InStep(c, s) {
      NothingFrom(c, s, 0);
    }
    if Changes(c, s) == [] {
      InStepFrom(c, s, 0);
    }
  }

  /** After a commit and a push the client's manifest is sorted, lists the same files, and has
      counted up exactly the files that were new or changed; comparing it with what the server
      now holds, which is the same manifest, finds nothing. */
  lemma PushConverges(c: seq<Entry>, s: seq<Entry>, c': seq<Entry>)
    requires Sorted(c) && Sorted(s) && IsPushed(c, Changes(c, s), c')
    ensures Sorted(c') && |c'| == |c|
    ensures forall p :: 0 <= p < |c| ==>
      && c'[p].name == c[p].name && c'[p].hash == c'[p].newhash == c[p].newhash
      && c'[p].version == if Changed(c, s, c[p].name) then c[p].version + 1 else c[p].version
    ensures Changes(c', c') == []
  {
    forall p | 0 <= p < |c|
      ensures c'[p].version == if Changed(c, s, c[p].name) then c[p].version + 1 else c[p].version
    {
      ChangesExact(c, s, c[p].name, 1);
    }
    NothingToCommitIff(c', c');
  }

  // ---------- The push of the client ----------

  /** The change list a push works with was saved by an earlier commit. The versions that move
      are those of its uploads; they are the right ones if and only if its uploads are the
      files that are new or changed now. Hashes are those of the working files in any case,
      so that nothing is left to commit. */
  lemma SavedListDecides(c: seq<Entry>, s: seq<Entry>, saved: seq<Change>, c': seq<Entry>)
    requires Sorted(c) && Sorted(s) && IsPushed(c, saved, c')
    ensures forall p :: 0 <= p < |c| ==> (c'[p].version == c[p].version + 1 <==> Uploads(saved, c[p].name))
    ensures (forall p :: 0 <= p < |c| ==> c'[p] == PushedEntry(c[p], Changes(c, s)))
      <==> (forall p :: 0 <= p < |c| ==> (Uploads(saved, c[p].name) <==> Changed(c, s, c[p].name)))
    ensures Changes(c', c') == []
  {
    forall p | 0 <= p < |c| ensures Uploads(Changes(c, s), c[p].name) <==> Changed(c, s, c[p].name) {
      ChangesExact(c, s, c[p].name, 1);
    }
    if forall p :: 0 <= p < |c| ==> c'[p] == PushedEntry(c[p], Changes(c, s)) {
      forall p | 0 <= p < |c| ensures Uploads(saved, c[p].name) <==> Changed(c, s, c[p].name) {
        assert c'[p] == PushedEntry(c[p], saved) && c'[p] == PushedEntry(c[p], Changes(c, s));
      }
    }
    NothingToCommitIff(c', c');
  }

  /** That they differ happens although both lists have one entry: file "a" was changed for
      the commit and changed back, and then "b" was changed. The version of "a" moves, and "b"
      gets its new hash under its old version. */
  lemma SavedListCanBeStale(h: seq<byte>, k: seq<byte>)
    requires h != k
    ensures var a, b := [97], [98];
      var c, s := [Entry(a, 1, h, h), Entry(b, 1, h, k)], [Entry(a, 1, h, h), Entry(b, 1, h, h)];
      var saved := [Change(a, 1)];
      && Sorted(c) && Sorted(s) && |Changes(c, s)| == |saved|
      && IsPushed(c, saved, [Entry(a, 2, h, h), Entry(b, 1, k, k)])
  {
    var a: seq<byte>, b: seq<byte> := [97], [98];
    var c, s := [Entry(a, 1, h, h), Entry(b, 1, h, k)], [Entry(a, 1, h, h), Entry(b, 1, h, h)];
    assert a[0] != b[0];
    assert Before(a, b);
    CmpIsOrder(a, a);
    CmpIsOrder(b, b);
    assert ChangesFrom(c, 2, s, 2) == [];
    assert ChangesFrom(c, 1, s, 1) == [Change(b, 1)] + ChangesFrom(c, 2, s, 2);
    assert ChangesFrom(c, 0, s, 0) == ChangesFrom(c, 1, s, 1);
    var saved := [Change(a, 1)];
    assert saved[0] in saved && Change(b, 1) !in saved;
  }

  /** The commit writes its change list to a file, from which the push reads new items. */
  method SaveChanges(changelog: seq<Item>, ghost l: seq<Change>) returns (saved: seq<Item>)
    requires Marked(changelog, l)
    ensures Marked(saved, l) && forall x :: x in saved ==> fresh(x)
  {
    saved := [];
    var i := 0;
    while i < |changelog|
      invariant i <= |changelog| && Marked(changelog, l) && Marked(saved, l[..i])
      invariant forall x :: x in saved ==> fresh(x)
    {
      var item := new Item(changelog[i].filename64, changelog[i].filename);
      item.changecode := changelog[i].changecode;
      saved := saved + [item];
      i := i + 1;
    }
    assert l[..|l|] == l;
  }

  /** The push up to the point where it writes: it compares again, stops when the number of
      changes is not that of the saved list, applies the saved list, and stops when that is
      empty. */
  method CheckAndProcess(project: ProjectManifest, server: seq<Item>, saved: seq<Item>, ghost l: seq<Change>)
    returns (ok: bool)
    requires Sorted(Entries(project.items)) && Sorted(Entries(server))
    requires Marked(saved, l) && SortedChanges(l) && CodesOk(l) && WithinReach(Entries(project.items), l)
    requires forall x :: x in saved ==> x !in project.items && x !in server
    modifies project, (set x | x in project.items)`hash, (set x | x in project.items)`versionNum
    modifies (set x | x in project.items + server)`changecode
    ensures project.items == old(project.items)
    ensures var c, s := old(Entries(project.items)), old(Entries(server));
      && (ok <==> |Changes(c, s)| == |l| && l != [])
      && (|Changes(c, s)| != |l| ==> Entries(project.items) == c && project.version == old(project.version))
      && (|Changes(c, s)| == |l| ==> IsPushed(c, l, Entries(project.items)) && project.version == old(project.version) + 1)
  {
    var generate := CompareForCommit(project.items, server);
    if |generate| != |saved| {
      return false;
    }
    project.ProcessPush(saved, l);
    ok := |saved| != 0;
  }

  /** A commit against the server's manifest and a push right after it. With no change nothing
      is pushed; otherwise the manifest to be sent is one version on, and comparing it with
      itself finds nothing. */
  method CommitAndPush(project: ProjectManifest, server: seq<Item>) returns (pushed: bool, again: seq<Item>)
    requires Sorted(Entries(project.items)) && Sorted(Entries(server))
    modifies project, (set x | x in project.items)`hash, (set x | x in project.items)`versionNum
    modifies (set x | x in project.items + server)`changecode
    ensures project.items == old(project.items) && project.version == old(project.version) + 1
    ensures pushed <==> Changes(old(Entries(project.items)), old(Entries(server))) != []
    ensures IsPushed(old(Entries(project.items)), Changes(old(Entries(project.items)), old(Entries(server))),
                     Entries(project.items))
    ensures again == []
  {
    ghost var c, s := Entries(project.items), Entries(server);
    ghost var l := Changes(c, s);
    CodesOfChanges(c, s);
    MergeSorted(c, 0, s, 0);
    var changelog := CompareForCommit(project.items, server);
    var saved := SaveChanges(changelog, l);
    pushed := CheckAndProcess(project, server, saved, l);
    PushConverges(c, s, Entries(project.items));
    again := CompareForCommit(project.items, project.items);
  }
}
