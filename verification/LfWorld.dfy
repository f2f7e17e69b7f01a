/** The fixed directory graph `lf` walks, the filters that steer the walk, and what the finder
    loop decides about one directory entry. */
module LfWorld {
  import opened Helpers

  /** A (device, inode) pair: what the source stores in a History record. */
  datatype Id = Id(dev: nat, ino: nat)

  datatype FileType = Fifo | Chr | Dir | Blk | Reg | Lnk | Sock | Unknown

  /** The result of one fstatat call. */
  datatype Stat = StatFailed | Stat(typ: FileType, id: Id)

  /** A directory entry: its name, its own metadata, and the metadata of what it resolves to
      (consulted only when the entry itself is a symbolic link). */
  datatype Entry = Entry(name: string, lstat: Stat, target: Stat)

  datatype Directory = Unreadable | Listing(entries: seq<Entry>)

  datatype Filters = Filters(followLinks: bool, includeHidden: bool, hiddenOnly: bool, maxDepth: int)

  /** A finite graph of directories. An id outside the map cannot be opened. */
  datatype World = World(fs: map<Id, Directory>, filters: Filters)

  datatype RawTask = RawTask(path: string, depth: nat, history: seq<Id>)

  /** A queued directory. The history array has `depth` slots, except that the base task, at
      depth 0, has one slot, which holds the base directory's own id. */
  type Task = t: RawTask | |t.history| == (if t.depth == 0 then 1 else t.depth)
    witness RawTask("", 0, [Id(0, 0)])

  /** What an observer sees: a task taken up by a finder, or a call of scan_file. */
  datatype Happening = Visited(task: Task) | Scanned(path: string, typ: FileType)

  /** What one entry leads to: a child task to enqueue, a scan_file call, both, or neither. */
  datatype Outcome = Outcome(child: Option<Task>, scan: Option<Happening>)

  const NOTHING := Outcome(None, None)

  predicate IsHidden(name: string) {
    |name| > 0 && name[0] == '.' && !IsDirSys(name)
  }

  predicate IsDirSys(name: string) {
    name == "." || name == ".."
  }

  /** The directory a task opens: the last id of its history. */
  function OwnId(t: Task): Id {
    t.history[|t.history| - 1]
  }

  function Entries(w: World, t: Task): seq<Entry> {
    if OwnId(t) in w.fs && w.fs[OwnId(t)].Listing? then w.fs[OwnId(t)].entries else []
  }

  predicate CanOpen(w: World, t: Task) {
    OwnId(t) in w.fs && w.fs[OwnId(t)].Listing?
  }

  function FullPath(dir: string, name: string): string {
    dir + "/" + name
  }

  /** The metadata left in `st` when the type of the entry is decided. */
  function Resolved(e: Entry): Stat {
    if e.lstat.Stat? && e.lstat.typ.Lnk? then e.target else e.lstat
  }

  /** The effective type: a link keeps its own type unless links are followed. */
  function EffectiveType(f: Filters, e: Entry): FileType
    requires e.lstat.Stat? && Resolved(e).Stat?
  {
    if f.followLinks then Resolved(e).typ else e.lstat.typ
  }

  /** The ids the cycle check looks at: history[0..depth). */
  function Seen(t: Task): seq<Id> {
    t.history[..t.depth]
  }

  function Child(t: Task, e: Entry, id: Id): Task {
    RawTask(FullPath(t.path, e.name), t.depth + 1, Seen(t) + [id])
  }

  function Report(f: Filters, t: Task, e: Entry, typ: FileType): Option<Happening> {
    if f.hiddenOnly && !IsHidden(e.name) then None else Some(Scanned(FullPath(t.path, e.name), typ))
  }

  /** One turn of the finder's readdir loop. */
  function Examine(w: World, t: Task, e: Entry): Outcome {
    var f := w.filters;
    if e.lstat.StatFailed? || Resolved(e).StatFailed? then
      NOTHING
    else
      var typ := EffectiveType(f, e);
      if !typ.Dir? then
        if IsHidden(e.name) && !f.includeHidden then NOTHING
        else if !IsHidden(e.name) && f.hiddenOnly then NOTHING
        else Outcome(None, Report(f, t, e, typ))
      else if IsDirSys(e.name) then
        NOTHING
      else if Resolved(e).id in Seen(t) then
        NOTHING
      else if f.maxDepth != 0 && t.depth + 1 == f.maxDepth then
        NOTHING
      else
        Outcome(Some(Child(t, e, Resolved(e).id)), Report(f, t, e, typ))
  }
}
