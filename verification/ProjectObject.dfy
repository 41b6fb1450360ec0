/** A version-controlled project as one atomic object: what each request to the server of
    Asst3/server/logic.c does to a project when nobody else is there. */
module ProjectObject {
  import opened CTypes
  import opened Decimal

  type Content = seq<byte>

  /** An archive, or a directory: file names with their contents. */
  type Archive = map<string, Content>

  const MANIFEST := ".Manifest"
  const COMMIT := ".Commit"

  /** The manifest of a new project: its header line and version 0. */
  const NEW_MANIFEST: Content := Text("Made_By_HXX&DZZ\n0\n")
  const CREATED: Content := Text("Made_By_HXX&DZZ\n")

  /** What a push stores. A push whose working files hold no .Commit stores none. */
  datatype Version = Version(manifest: Content, tar: Archive, commit: Option<Content>)

  /** history[k - 1] is version k; work holds the current files. */
  datatype Project = NoProject | Project(history: seq<Version>, work: Archive)

  /** In a push, junk is what the uninitialised variable for the declared version holds. */
  datatype Request =
    | Create | History | CurrentVersion | Destroy
    | Rollback(version: nat) | Checkout | Update | Upgrade(wanted: int) | Commit
    | Push(manifest: Content, tar: Archive, junk: int)

  /** Exit is the end of the whole server process. */
  datatype Response = Reply(code: nat, text: Content, files: Option<Archive>) | Exit

  function Status(code: nat): Response {
    Reply(code, [], None)
  }

  function Answer(code: nat, text: Content): Response {
    Reply(code, text, None)
  }

  // ---------- The pieces ----------

  /** The version a manifest declares behind its 16-byte header line. */
  function Declared(manifest: Content, junk: int): int
    requires |manifest| > 16
  {
    var v := ScanInt(manifest[16..]);
    if v.None? then junk else v.value.0
  }

  predicate Hidden(name: string) {
    name != "" && name[0] == '.'
  }

  /** rm -rf on the pattern of all names leaves those that start with a dot. */
  function Cleared(dir: Archive): Archive {
    map name | name in dir && Hidden(name) :: dir[name]
  }

  function Lookup(dir: Archive, name: string): Option<Content> {
    if name in dir then Some(dir[name]) else None
  }

  /** The commit records of all versions, each followed by an empty line; None if one is
      missing. */
  function Commits(history: seq<Version>): Option<Content> {
    if history == [] then Some([])
    else
      var n := |history| - 1;
      var before := Commits(history[..n]);
      if before.None? || history[n].commit.None? then None
      else Some(before.value + history[n].commit.value + [NEWLINE, NEWLINE])
  }

  /** The working files after unpacking a pushed archive. */
  function Unpacked(work: Archive, tar: Archive): Archive {
    Cleared(work) + tar
  }

  function Pushed(p: Project, manifest: Content, tar: Archive): Project
    requires p.Project?
  {
    var files := Unpacked(p.work, tar);
    Project(p.history + [Version(manifest, tar, Lookup(files, COMMIT))], files[MANIFEST := manifest])
  }

  /** The working files are not emptied first: the command names a directory curr, which
      does not exist, instead of Curr. */
  function RolledBack(p: Project, version: nat): Project
    requires p.Project? && 0 < version <= |p.history|
  {
    Project(p.history[..version], p.work + p.history[version - 1].tar)
  }

  function Read(p: Project, req: Request): Response
    requires p.Project?
  {
    var n := |p.history|;
    match req
    case History =>
      if n == 0 then Status(101)
      else
        var commits := Commits(p.history);
        if commits.None? then Exit else Answer(100, commits.value)
    case CurrentVersion =>
      if n == 0 then Status(201) else Answer(200, p.history[n - 1].manifest)
    case Checkout =>
      if n == 0 then Status(502) else Reply(500, [], Some(p.history[n - 1].tar))
    case Update =>
      if MANIFEST in p.work then Answer(600, p.work[MANIFEST]) else Status(601)
    case Upgrade(v) =>
      if v > n || v < 0 then Status(702)
      else if v == 0 then Status(701)
      else Reply(700, p.history[v - 1].manifest, Some(p.history[v - 1].tar))
    case Commit =>
      if MANIFEST in p.work then Answer(800, p.work[MANIFEST]) else Exit
    case _ => Status(999)
  }

  // ---------- The object ----------

  /** One request, carried out at once. */
  function Apply(p: Project, req: Request): (Project, Response) {
    match req
    case Create =>
      if p.Project? then (p, Status(1)) else (Project([], map[MANIFEST := NEW_MANIFEST]), Answer(0, CREATED))
    case Destroy =>
      if p.NoProject? then (p, Status(999)) else (NoProject, Status(300))
    case Rollback(version) =>
      if p.NoProject? then (p, Status(999))
      else if version > |p.history| || version == 0 then (p, Status(401))
      else if version == |p.history| then (p, Status(400))
      else (RolledBack(p, version), Status(400))
    case Push(manifest, tar, junk) =>
      if p.NoProject? then (p, Status(999))
      else if |manifest| <= 16 then (p, Status(901))
      else if Declared(manifest, junk) != |p.history| + 1 then (p, Status(902))
      else (Pushed(p, manifest, tar), Status(900))
    case _ =>
      if p.NoProject? then (p, Status(999)) else (p, Read(p, req))
  }
}
