/** From one commit to the next: what a client pushes is accepted by the server, and when the
    client gets it back there is nothing left to commit. */
module PushCycle {
  import opened CTypes
  import opened ManifestItems
  import opened ManifestText
  import opened ManifestCompare
  import opened ManifestPush
  import ProjectObject

  /** The text of a manifest declares its version, and is longer than its header line. */
  lemma TextDeclares(version: int, lines: seq<Line>, junk: int)
    ensures var text := TextOf(version, lines);
      |text| > 16 && ProjectObject.Declared(text, junk) == version
  {
    ScanText(version, lines);
  }

  /** The manifest the server makes for a new project is that of version 0 without files. */
  lemma NewManifestIsEmpty()
    ensures ProjectObject.NEW_MANIFEST == TextOf(0, [])
  {
    assert TextOf(0, []) == HEADER + [ZERO] + [NEWLINE] + [];
  }

  /** A push of the manifest with version v is accepted if and only if the project is at
      version v - 1. */
  lemma AcceptedIffNext(p: ProjectObject.Project, version: int, lines: seq<Line>, tar: ProjectObject.Archive, junk: int)
    requires p.Project?
    ensures ProjectObject.Apply(p, ProjectObject.Push(TextOf(version, lines), tar, junk)).1
      == ProjectObject.Status(if version == |p.history| + 1 then 900 else 902)
  {
    TextDeclares(version, lines, junk);
  }

  /** What the server stores of an accepted push is what the next commit, update or
      currentversion is answered with. */
  lemma PushIsAnswered(p: ProjectObject.Project, text: ProjectObject.Content, tar: ProjectObject.Archive, junk: int)
    requires ProjectObject.Apply(p, ProjectObject.Push(text, tar, junk)).1 == ProjectObject.Status(900)
    ensures var q := ProjectObject.Apply(p, ProjectObject.Push(text, tar, junk)).0;
      && ProjectObject.Apply(q, ProjectObject.Commit).1 == ProjectObject.Answer(800, text)
      && ProjectObject.Apply(q, ProjectObject.Update).1 == ProjectObject.Answer(600, text)
      && ProjectObject.Apply(q, ProjectObject.CurrentVersion).1 == ProjectObject.Answer(200, text)
  {
  }

  /** The items of a working copy: names with their Base64 texts, hashes without blanks. */
  ghost predicate Kept(item: Item)
    reads item
  {
    WellKept(item) && Solid(item.newhash)
  }

  lemma SameEntries(items: seq<Item>, items': seq<Item>)
    requires |items'| == |items|
    requires forall i :: 0 <= i < |items| ==> items[i].hash == items[i].newhash
    requires forall i :: 0 <= i < |items| ==>
      items'[i].filename == items[i].filename && LineOf(items'[i], false) == LineOf(items[i], false)
    ensures InStep(Entries(items), Entries(items'))
    ensures Sorted(Entries(items)) ==> Sorted(Entries(items'))
  {
    var c, s := Entries(items), Entries(items');
    forall p | 0 <= p < |c| ensures c[p].name == s[p].name && c[p].newhash == s[p].hash {
      assert LineOf(items'[p], false) == LineOf(items[p], false);
    }
  }

  /** Writes the pushed manifest and reads it back: the server's manifest is in step with it. */
  method ReadBack(items: seq<Item>, version: int, unset: int) returns (text: seq<byte>, stored: seq<Item>)
    requires Sorted(Entries(items))
    requires forall i :: 0 <= i < |items| ==> WellKept(items[i]) && items[i].hash == items[i].newhash
    ensures text == TextOf(version, Lines(items, false))
    ensures (forall x :: x in stored ==> fresh(x)) && Sorted(Entries(stored))
    ensures Changes(Entries(items), Entries(stored)) == []
  {
    var version';
    text, version', stored := WriteAndRead(items, version, unset);
    SameEntries(items, stored);
    NothingToCommitIff(Entries(items), Entries(stored));
  }

  lemma SameLines(lines: seq<Line>, items: seq<Item>)
    requires |lines| == |items| && forall i :: 0 <= i < |items| ==> lines[i] == LineOf(items[i], false)
    ensures lines == Lines(items, false)
  {
  }

  lemma HashesPushed(items: seq<Item>, c: seq<Entry>, l: seq<Change>)
    requires IsPushed(c, l, Entries(items)) && |c| == |items|
    ensures forall i :: 0 <= i < |items| ==> items[i].hash == items[i].newhash && items[i].newhash == c[i].newhash
  {
    var c' := Entries(items);
    forall i | 0 <= i < |items| ensures items[i].hash == items[i].newhash && items[i].newhash == c[i].newhash {
      assert c'[i] == EntryOf(items[i]);
      assert c'[i] == PushedEntry(c[i], l);
    }
  }

  /** The manifest is sent, accepted and stored, and the next commit is answered with it. */
  ghost predicate Stored(p: ProjectObject.Project, text: ProjectObject.Content, tar: ProjectObject.Archive, junk: int) {
    var (q, response) := ProjectObject.Apply(p, ProjectObject.Push(text, tar, junk));
    && response == ProjectObject.Status(900)
    && ProjectObject.Apply(q, ProjectObject.Commit) == (q, ProjectObject.Answer(800, text))
  }

  lemma NextIsStored(p: ProjectObject.Project, version: int, lines: seq<Line>, tar: ProjectObject.Archive, junk: int)
    requires p.Project? && version == |p.history| + 1
    ensures Stored(p, TextOf(version, lines), tar, junk)
  {
    AcceptedIffNext(p, version, lines, tar, junk);
    PushIsAnswered(p, TextOf(version, lines), tar, junk);
  }

  /** Commits, pushes to the project p at the client's version, and commits again against the
      manifest that the server answers with. Without changes nothing is sent; otherwise the
      push is accepted, and in both cases nothing is left to commit. */
  method Cycle(project: ProjectManifest, server: seq<Item>, unset: int,
               ghost p: ProjectObject.Project, ghost tar: ProjectObject.Archive, ghost junk: int)
    returns (text: Option<seq<byte>>, again: seq<Item>)
    requires Sorted(Entries(project.items)) && Sorted(Entries(server))
    requires forall i :: 0 <= i < |project.items| ==> Kept(project.items[i])
    requires p.Project? && |p.history| == project.version
    modifies project, (set x | x in project.items)`hash, (set x | x in project.items)`versionNum
    modifies (set x | x in project.items + server)`changecode
    ensures text.None? <==> Changes(old(Entries(project.items)), old(Entries(server))) == []
    ensures text.Some? ==> Stored(p, text.value, tar, junk)
    ensures text.Some? ==> text.value == TextOf(old(project.version) + 1, Lines(project.items, false))
    ensures IsPushed(old(Entries(project.items)), Changes(old(Entries(project.items)), old(Entries(server))),
                     Entries(project.items))
    ensures again == []
  {
    ghost var c, s := Entries(project.items), Entries(server);
    var pushed, nothing := CommitAndPush(project, server);
    HashesPushed(project.items, c, Changes(c, s));
    if !pushed {
      return None, nothing;
    }
    PushConverges(c, s, Entries(project.items));
    var answered, stored;
    answered, stored := ReadBack(project.items, project.version, unset);
    ghost var lines := Lines(project.items, false);
    NextIsStored(p, project.version, lines, tar, junk);
    text := Some(answered);
    again := CompareForCommit(project.items, stored);
    SameLines(lines, project.items);
  }
}
