/**
 * Publishing a new file without ever overwriting: a private temporary beside the destination,
 * written, synced and closed, then hard-linked to the destination and unlinked. Other
 * processes may change any other path between two steps.
 */
module Publishing {
  import opened Wrappers
  import opened ByteStrings

  type Path = string

  /** What a reader sees: the contents at each path. */
  type View = map<Path, Bytes>

  /** One of our own system calls, as a reader would see it. */
  datatype Change = Change(before: View, after: View)

  /** Which system calls work, and how much a failing write had written. */
  datatype Works = Works(open: bool, chmod: bool, write: bool, written: nat, sync: bool,
                         link: bool, unlink: bool, syncDir: bool)

  datatype Linked = Done | Exists | Failed

  predicate Same(before: View, after: View, path: Path) {
    && (path in before <==> path in after)
    && (path in before ==> before[path] == after[path])
  }

  /** The destination came into being whole. */
  predicate Published(change: Change, path: Path, bytes: Bytes) {
    path !in change.before && path in change.after && change.after[path] == bytes
  }

  /** A step of ours that leaves every path but the temporary as it was, or at most brings the
      whole destination into being. */
  ghost predicate Honest(change: Change, temp: Path, path: Path, bytes: Bytes) {
    && (forall p | p != temp && p != path :: Same(change.before, change.after, p))
    && (Same(change.before, change.after, path) || Published(change, path, bytes))
  }

  /** A step of ours that changes the temporary alone. */
  ghost predicate Private(change: Change, temp: Path) {
    forall p | p != temp :: Same(change.before, change.after, p)
  }

  /** What a write leaves: everything, or what was written before it failed. */
  function Part(bytes: Bytes, works: bool, written: nat): Bytes {
    if works || written > |bytes| then bytes else bytes[..written]
  }

  /** All but the temporary. */
  ghost function Aside(view: View, temp: Path): View {
    view - {temp}
  }

  /** A view with the destination in it, where it was published. */
  function Placed(view: View, published: bool, path: Path, bytes: Bytes): View {
    if published then view[path := bytes] else view
  }

  lemma AsideWritten(view: View, temp: Path, contents: Bytes)
    ensures Aside(view[temp := contents], temp) == Aside(view, temp) == Aside(view - {temp}, temp)
  {
  }

  lemma AsideLinked(view: View, temp: Path, path: Path, contents: Bytes)
    requires temp != path
    ensures Aside(view[path := contents], temp) == Aside(view, temp)[path := contents]
    ensures path in Aside(view, temp) <==> path in view
  {
  }

  // ---------------------------------------------------------------- the filesystem

  /** The paths and their contents (a hard link shows its file's contents; nothing is written
      once linked), what other processes leave between our steps, and our own changes. */
  class FileSystem {
    var files: View
    var others: seq<View>
    ghost var log: seq<Change>

    /** `open` with `O_CREAT | O_EXCL`. */
    method Open(path: Path, works: bool) returns (created: bool)
      modifies this
      ensures created <==> works && path !in old(files)
      ensures files == if created then old(files)[path := []] else old(files)
      ensures log == if created then old(log) + [Change(old(files), files)] else old(log)
      ensures others == old(others)
    {
      created := works && path !in files;
      if created {
        files := files[path := []];
        log := log + [Change(old(files), files)];
      }
    }

    /** `write_all`: a failing one leaves the bytes written before the failure. */
    method Write(temp: Path, bytes: Bytes, works: bool, written: nat)
      requires temp in files
      modifies this
      ensures files == old(files)[temp := old(files)[temp] + Part(bytes, works, written)]
      ensures log == old(log) + [Change(old(files), files)]
      ensures others == old(others)
    {
      files := files[temp := files[temp] + Part(bytes, works, written)];
      log := log + [Change(old(files), files)];
    }

    /** `link`: never replaces a name. */
    method Link(temp: Path, path: Path, works: bool) returns (linked: Linked)
      requires temp in files
      modifies this
      ensures linked == if path in old(files) then Exists else if works then Done else Failed
      ensures files == if linked.Done? then old(files)[path := old(files)[temp]] else old(files)
      ensures log == if linked.Done? then old(log) + [Change(old(files), files)] else old(log)
      ensures others == old(others)
    {
      linked := if path in files then Exists else if works then Done else Failed;
      if linked.Done? {
        files := files[path := files[temp]];
        log := log + [Change(old(files), files)];
      }
    }

    method Unlink(temp: Path, works: bool)
      modifies this
      ensures files == if works then old(files) - {temp} else old(files)
      ensures log == old(log) + [Change(old(files), files)]
      ensures others == old(others)
    {
      if works {
        files := files - {temp};
      }
      log := log + [Change(old(files), files)];
    }

    /** Other processes may do anything to any path but the private temporary. */
    method Others(temp: Path)
      modifies this
      ensures log == old(log) && Same(old(files), files, temp)
      ensures old(others) == [] ==> others == [] && files == old(files)
    {
      if others != [] {
        var view := others[0] - {temp};
        files := if temp in files then view[temp := files[temp]] else view;
        others := others[1..];
      }
    }
  }

  // ---------------------------------------------------------------- the reservation

  datatype Outcome = Durable | DirectoryNotSynced | FileNotSynced

  /** Why a reservation was not published; but for `Write` it is still held, complete. */
  datatype LinkError = Write | NotSynced | AlreadyThere | NotLinked

  datatype Error = AlreadyExists | CannotWrite

  /** Since `before`, our steps were honest about the destination. */
  ghost predicate AllHonest(before: seq<Change>, log: seq<Change>, temp: Path, path: Path, bytes: Bytes) {
    before <= log && forall i | |before| <= i < |log| :: Honest(log[i], temp, path, bytes)
  }

  ghost predicate AllPrivate(before: seq<Change>, log: seq<Change>, temp: Path) {
    before <= log && forall i | |before| <= i < |log| :: Private(log[i], temp)
  }

  ghost predicate PublishedSince(before: seq<Change>, log: seq<Change>, path: Path, bytes: Bytes) {
    exists i | |before| <= i < |log| :: Published(log[i], path, bytes)
  }

  lemma ThenPrivate(a: seq<Change>, b: seq<Change>, c: seq<Change>, temp: Path, path: Path, bytes: Bytes)
    requires a <= b && AllPrivate(b, c, temp) && temp != path
    ensures AllHonest(a, b, temp, path, bytes) ==> AllHonest(a, c, temp, path, bytes)
    ensures AllPrivate(a, b, temp) ==> AllPrivate(a, c, temp)
    ensures PublishedSince(a, b, path, bytes) ==> PublishedSince(a, c, path, bytes)
  {
    forall i | |a| <= i < |b|
      ensures b[i] == c[i]
    {
    }
    if PublishedSince(a, b, path, bytes) {
      var i :| |a| <= i < |b| && Published(b[i], path, bytes);
      assert Published(c[i], path, bytes);
    }
  }

  lemma PrivateThen(a: seq<Change>, b: seq<Change>, c: seq<Change>, temp: Path, path: Path, bytes: Bytes)
    requires AllPrivate(a, b, temp) && b <= c && temp != path
    ensures AllHonest(b, c, temp, path, bytes) ==> AllHonest(a, c, temp, path, bytes)
    ensures AllPrivate(b, c, temp) ==> AllPrivate(a, c, temp)
    ensures PublishedSince(b, c, path, bytes) ==> PublishedSince(a, c, path, bytes)
  {
    forall i | |a| <= i < |b|
      ensures b[i] == c[i]
    {
    }
  }

  /** A private temporary beside the destination; dropping it removes the temporary unless
      `Keep` took it. */
  class Reservation {
    const fs: FileSystem
    const works: Works
    const temp: Path
    /** Whether the temporary is still open for writing. */
    var file: bool
    var armed: bool

    ghost predicate Valid()
      reads this, fs
    {
      (armed ==> temp in fs.files) && (file ==> armed)
    }

    /** The whole file is in the temporary, which is still ours to remove. */
    ghost predicate Complete(bytes: Bytes)
      reads this, fs
    {
      Valid() && armed && !file && fs.files[temp] == bytes
    }

    constructor (fs: FileSystem, works: Works, temp: Path)
      requires temp in fs.files
      ensures Valid() && armed && file
      ensures this.fs == fs && this.works == works && this.temp == temp
    {
      this.fs, this.works, this.temp := fs, works, temp;
      file, armed := true, true;
    }

    /** Write and close the temporary; a write that fails removes it. */
    method WriteTemp(bytes: Bytes) returns (whole: bool)
      requires Valid() && file && fs.files[temp] == []
      modifies this, fs
      ensures AllPrivate(old(fs.log), fs.log, temp)
      ensures whole <==> works.write
      ensures whole ==> Complete(bytes)
      ensures !whole ==> Valid() && !armed && (works.unlink ==> temp !in fs.files)
      ensures old(fs.others) == [] ==> fs.others == [] && Aside(fs.files, temp) == Aside(old(fs.files), temp)
    {
      file := false;
      fs.Others(temp);
      AsideWritten(fs.files, temp, fs.files[temp] + Part(bytes, works.write, works.written));
      fs.Write(temp, bytes, works.write, works.written);
      if !works.write {
        Drop();
      }
      whole := works.write;
    }

    /** Write, sync and close the temporary, then link it. */
    method WriteAndLink(path: Path, bytes: Bytes) returns (r: Result<Outcome, LinkError>)
      requires Valid() && temp != path
      requires file ==> fs.files[temp] == []
      modifies this, fs
      ensures Valid() && AllHonest(old(fs.log), fs.log, temp, path, bytes)
      ensures r.Ok? ==> !armed && PublishedSince(old(fs.log), fs.log, path, bytes)
      ensures r.Ok? ==> works.write && works.sync && works.link
      ensures r.Ok? ==> (works.unlink ==> temp !in fs.files)
      ensures r.Ok? ==> r.value == if works.syncDir then Durable else DirectoryNotSynced
      ensures r.Err? ==> AllPrivate(old(fs.log), fs.log, temp)
      ensures r.Err? && !r.error.Write? ==> Complete(bytes)
      ensures r.Err? ==>
                match r.error
                case Write => !armed && (!works.write || !old(file))
                case NotSynced => works.write && !works.sync
                case AlreadyThere => works.write && works.sync && path in fs.files
                case NotLinked => works.write && works.sync && !works.link && path !in fs.files
      ensures r == Err(Write) && old(armed) && works.unlink ==> temp !in fs.files
      ensures old(fs.others) == [] ==>
                fs.others == [] &&
                Aside(fs.files, temp) == Placed(Aside(old(fs.files), temp), r.Ok?, path, bytes)
      ensures old(fs.others) == [] && old(file) ==>
                (r.Ok? <==> works.write && works.sync && works.link && path !in old(fs.files))
    {
      if !file {
        Drop();
        return Err(Write);
      }
      ghost var before, log := fs.files, fs.log;
      var whole := WriteTemp(bytes);
      if !whole {
        return Err(Write);
      }
      if !works.sync {
        return Err(NotSynced);
      }
      AsideLinked(before, temp, path, bytes);
      AsideLinked(fs.files, temp, path, bytes);
      ghost var middle := fs.log;
      r := LinkTo(path, bytes);
      PrivateThen(log, middle, fs.log, temp, path, bytes);
    }

    /** Link a complete temporary whose sync failed. */
    method LinkUnsynced(path: Path, ghost bytes: Bytes) returns (r: Result<Outcome, LinkError>)
      requires Complete(bytes) && temp != path
      modifies this, fs
      ensures Valid() && AllHonest(old(fs.log), fs.log, temp, path, bytes)
      ensures r.Ok? ==> r.value == FileNotSynced && PublishedSince(old(fs.log), fs.log, path, bytes)
      ensures r.Ok? ==> !armed && works.link && (works.unlink ==> temp !in fs.files)
      ensures r.Err? ==> r.error == (if path in fs.files then AlreadyThere else NotLinked) && Complete(bytes)
      ensures r.Err? ==> AllPrivate(old(fs.log), fs.log, temp)
      ensures old(fs.others) == [] ==> (r.Ok? <==> works.link && path !in old(fs.files))
    {
      r := LinkTo(path, bytes);
      if r.Ok? {
        r := Ok(FileNotSynced);
      }
    }

    /** `link` and, once linked, `finish`. */
    method LinkTo(path: Path, ghost bytes: Bytes) returns (r: Result<Outcome, LinkError>)
      requires Complete(bytes) && temp != path
      modifies this, fs
      ensures Valid() && AllHonest(old(fs.log), fs.log, temp, path, bytes)
      ensures r.Ok? ==> !armed && works.link && PublishedSince(old(fs.log), fs.log, path, bytes)
      ensures r.Ok? ==> (works.unlink ==> temp !in fs.files)
      ensures r.Ok? ==> r.value == if works.syncDir then Durable else DirectoryNotSynced
      ensures r.Err? ==> Complete(bytes) && AllPrivate(old(fs.log), fs.log, temp)
      ensures r.Err? ==> r.error == (if path in fs.files then AlreadyThere else NotLinked)
      ensures r == Err(NotLinked) ==> !works.link
      ensures old(fs.others) == [] ==>
                fs.others == [] &&
                Aside(fs.files, temp) == Placed(Aside(old(fs.files), temp), r.Ok?, path, bytes)
      ensures old(fs.others) == [] ==> (r.Ok? <==> works.link && path !in old(fs.files))
    {
      ghost var log := fs.log;
      var linked := LinkName(path, bytes);
      match linked
      case Exists => r := Err(AlreadyThere);
      case Failed => r := Err(NotLinked);
      case Done =>
        ghost var middle := fs.log;
        var outcome := Finish();
        ThenPrivate(log, middle, fs.log, temp, path, bytes);
        r := Ok(outcome);
    }

    /** `link`: the destination is a name of the temporary's contents, unless it was taken. */
    method LinkName(path: Path, ghost bytes: Bytes) returns (linked: Linked)
      requires Complete(bytes) && temp != path
      modifies fs
      ensures Complete(bytes) && AllHonest(old(fs.log), fs.log, temp, path, bytes)
      ensures linked.Done? ==> works.link && PublishedSince(old(fs.log), fs.log, path, bytes)
      ensures !linked.Done? ==> AllPrivate(old(fs.log), fs.log, temp)
      ensures !linked.Done? ==> linked == if path in fs.files then Exists else Failed
      ensures linked.Failed? ==> !works.link
      ensures old(fs.others) == [] ==>
                && fs.others == []
                && (linked.Done? <==> works.link && path !in old(fs.files))
                && Aside(fs.files, temp) == Placed(Aside(old(fs.files), temp), linked.Done?, path, bytes)
    {
      ghost var from := |fs.log|;
      fs.Others(temp);
      AsideLinked(fs.files, temp, path, bytes);
      linked := fs.Link(temp, path, works.link);
      if linked.Done? {
        assert Published(fs.log[from], path, bytes);
      }
    }

    /** What follows a link: our own name of the file is given up, and the directory goes to disk. */
    method Finish() returns (outcome: Outcome)
      requires Valid() && armed && !file
      modifies this, fs
      ensures Valid() && !armed && AllPrivate(old(fs.log), fs.log, temp)
      ensures works.unlink ==> temp !in fs.files
      ensures outcome == if works.syncDir then Durable else DirectoryNotSynced
      ensures old(fs.others) == [] ==> fs.others == [] && Aside(fs.files, temp) == Aside(old(fs.files), temp)
    {
      fs.Others(temp);
      AsideWritten(fs.files, temp, []);
      fs.Unlink(temp, works.unlink);
      armed := false;
      outcome := if works.syncDir then Durable else DirectoryNotSynced;
    }

    /** Keep the temporary; its path. */
    method Keep() returns (path: Path)
      requires Valid()
      modifies this
      ensures Valid() && !armed && path == temp
      ensures old(armed) ==> path in fs.files
    {
      file, armed := false, false;
      path := temp;
    }

    /** The drop: a temporary still ours is removed. */
    method Drop()
      requires Valid()
      modifies this, fs
      ensures Valid() && !armed && AllPrivate(old(fs.log), fs.log, temp)
      ensures old(armed) && works.unlink ==> temp !in fs.files
      ensures !old(armed) ==> fs.files == old(fs.files) && fs.log == old(fs.log) && fs.others == old(fs.others)
      ensures old(fs.others) == [] ==> fs.others == [] && Aside(fs.files, temp) == Aside(old(fs.files), temp)
    {
      file := false;
      if armed {
        armed := false;
        fs.Others(temp);
        AsideWritten(fs.files, temp, []);
        fs.Unlink(temp, works.unlink);
      }
    }
  }

  /** Reserve a fresh temporary; nothing is left when its mode cannot be set. */
  method ReserveNew(fs: FileSystem, works: Works, temp: Path) returns (r: Result<Reservation, Error>)
    modifies fs
    ensures AllPrivate(old(fs.log), fs.log, temp)
    ensures fs.others == old(fs.others) && Aside(fs.files, temp) == Aside(old(fs.files), temp)
    ensures r.Ok? ==>
              && fresh(r.value) && r.value.fs == fs && r.value.works == works && r.value.temp == temp
              && r.value.Valid() && r.value.armed && r.value.file && fs.files[temp] == []
    ensures r.Ok? ==> works.open && works.chmod
    ensures r.Err? ==> r.error.CannotWrite?
    ensures r.Err? && temp !in old(fs.files) ==> !works.open || !works.chmod
    ensures r.Err? && temp !in old(fs.files) && works.unlink ==> temp !in fs.files
  {
    AsideWritten(fs.files, temp, []);
    var created := fs.Open(temp, works.open);
    if !created {
      return Err(CannotWrite);
    }
    if !works.chmod {
      fs.Unlink(temp, works.unlink);
      return Err(CannotWrite);
    }
    var reservation := new Reservation(fs, works, temp);
    return Ok(reservation);
  }

  /**
   * Publish `bytes` at `path`. Every step of ours leaves every other path as it was and the
   * destination either as it was or, where nothing was, whole. Success means one step brought
   * the bytes into place; a refusal, that none touched the destination. Undisturbed by others, the
   * outcome is determined, and nothing but the destination differs in the end.
   */
  method PublishNew(fs: FileSystem, works: Works, temp: Path, path: Path, bytes: Bytes)
    returns (r: Result<Outcome, Error>)
    requires temp != path && temp !in fs.files
    modifies fs
    ensures AllHonest(old(fs.log), fs.log, temp, path, bytes)
    ensures r.Ok? ==> PublishedSince(old(fs.log), fs.log, path, bytes)
    ensures r.Ok? ==> r.value == if works.syncDir then Durable else DirectoryNotSynced
    ensures r.Err? ==> AllPrivate(old(fs.log), fs.log, temp)
    ensures r == Err(AlreadyExists) ==> works.open && works.chmod && works.write && works.sync
    ensures r == Err(CannotWrite) ==> !(works.open && works.chmod && works.write && works.sync && works.link)
    ensures works.unlink ==> temp !in fs.files
    ensures old(fs.others) == [] ==>
              && (r.Ok? <==>
                    works.open && works.chmod && works.write && works.sync && works.link && path !in old(fs.files))
              && (r == Err(AlreadyExists) <==>
                    works.open && works.chmod && works.write && works.sync && path in old(fs.files))
    ensures old(fs.others) == [] ==>
              Aside(fs.files, temp) == Placed(old(fs.files), r.Ok?, path, bytes)
  {
    ghost var before, log := fs.files, fs.log;
    assert Aside(before, temp) == before;
    var reserved := ReserveNew(fs, works, temp);
    if reserved.Err? {
      return Err(CannotWrite);
    }
    var reservation := reserved.value;
    AsideLinked(fs.files, temp, path, bytes);
    ghost var reservedLog := fs.log;
    var linked := reservation.WriteAndLink(path, bytes);
    PrivateThen(log, reservedLog, fs.log, temp, path, bytes);
    ghost var linkedLog := fs.log;
    reservation.Drop();
    ThenPrivate(log, linkedLog, fs.log, temp, path, bytes);
    match linked
    case Ok(outcome) => r := Ok(outcome);
    case Err(AlreadyThere) => r := Err(AlreadyExists);
    case Err(_) => r := Err(CannotWrite);
  }
}
