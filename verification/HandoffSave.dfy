/** Saving an agent handoff (frontend/src-tauri/src/agent_handoff.rs): `write_atomic` as file-system steps of
    which any may fail, with a crash possible between any two, and the order of selection, snapshot and
    write. */
module HandoffSave {
  import opened Wrappers
  import opened AgentHandoff

  datatype Path = Path(dir: string, name: string)

  /** A destination as chosen; `NoFileName` is a path that ends in `..` or is a root. */
  datatype Destination = NoFileName | File(path: Path)

  datatype Error = SnapshotUnavailable | UnsafeDestination | WriteFailed

  type Files = map<Path, string>

  function FullPath(p: Path): string { p.dir + "/" + p.name }

  /** The temporary name next to the destination. */
  function Temporary(p: Path, uuid: string): Path {
    Path(p.dir, "." + p.name + "." + uuid + ".tmp")
  }

  /** The temporary file is another one in the same directory, and of its own for every identifier of one length. */
  lemma {:induction false} TemporaryIsElsewhere(p: Path, uuid: string)
    ensures Temporary(p, uuid) != p && Temporary(p, uuid).dir == p.dir
    ensures forall other :: |other| == |uuid| && other != uuid ==> Temporary(p, other) != Temporary(p, uuid)
  {
    assert |Temporary(p, uuid).name| > |p.name|;
    forall other | |other| == |uuid| && other != uuid ensures Temporary(p, other) != Temporary(p, uuid) {
      var n := |p.name| + 2;
      assert Temporary(p, other).name[n..n + |uuid|] == other;
      assert Temporary(p, uuid).name[n..n + |uuid|] == uuid;
    }
  }

  /** The destination holds its complete old or its complete new content, and no file but it and the
      temporary differs. */
  ghost predicate Intact(before: Files, now: Files, dest: Path, temp: Path, content: string) {
    && (dest in now ==> (dest in before && now[dest] == before[dest]) || now[dest] == content)
    && (dest !in now ==> dest !in before)
    && (forall p :: p != dest && p != temp ==> (p in now <==> p in before) && (p in now ==> now[p] == before[p]))
  }

  predicate Writable(destination: Destination, dirs: set<string>) {
    destination.File? && FullPath(destination.path) !in dirs && destination.path.dir in dirs
  }

  /** Nothing but the file `p` has been added. */
  ghost predicate OnlyAdds(before: Files, now: Files, p: Path) {
    p in now && now - {p} == before
  }

  /** What an atomic write with result `r` has made of the files `before`; `was` and `history` record the steps
      before and after. In every state that a crash could leave, the destination is complete and all other
      files are as they were, provided the temporary name was free. Success leaves the new content and
      nothing else; failure leaves the old content and, unless its removal fails too, no temporary. If the
      name was taken, the write fails, but the clean-up may have removed the file that had it. */
  ghost predicate Written(before: Files, now: Files, was: seq<Files>, history: seq<Files>, dirs: set<string>,
                          destination: Destination, content: string, uuid: string, r: Result<(), Error>) {
    if !Writable(destination, dirs) then
      && now == before && history == was
      && r == Err(if destination.NoFileName? || FullPath(destination.path) in dirs then UnsafeDestination
                  else WriteFailed)
    else
      var dest := destination.path;
      var temp := Temporary(dest, uuid);
      && (r == Ok(()) || r == Err(WriteFailed))
      && (r.Ok? ==> temp !in before && now == before[dest := content])
      && (r.Err? && temp !in before ==> now == before || OnlyAdds(before, now, temp))
      && (r.Err? && temp in before ==> now == before || now == before - {temp})
      && was <= history
      && forall k :: |was| <= k < |history| ==> Intact(before, history[k], dest, temp, content)
  }

  /** A file system. `history` records its content after every step: what a crash would leave. */
  class FileSystem {
    const dirs: set<string>
    var files: Files
    ghost var history: seq<Files>

    constructor (dirs: set<string>, files: Files)
      ensures this.dirs == dirs && this.files == files && history == []
    {
      this.dirs, this.files, history := dirs, files, [];
    }

    /** `create_new`: fails if the name is taken. */
    method CreateNew(p: Path) returns (ok: bool)
      modifies this
      ensures ok ==> p !in old(files) && files == old(files)[p := ""] && history == old(history) + [files]
      ensures !ok ==> files == old(files) && history == old(history)
    {
      if p in files || FullPath(p) in dirs { return false; }
      if * { return false; }
      files := files[p := ""];
      history := history + [files];
      return true;
    }

    /** `write`: some bytes, or an error. */
    method Append(p: Path, d: string) returns (n: int)
      requires p in files && d != ""
      modifies this
      ensures n < 0 ==> files == old(files) && history == old(history)
      ensures n >= 0 ==> 0 < n <= |d| && files == old(files)[p := old(files)[p] + d[..n]]
                         && history == old(history) + [files]
    {
      if * { return -1; }
      var k: nat :| 1 <= k <= |d|;
      files := files[p := files[p] + d[..k]];
      history := history + [files];
      return k;
    }

    method SyncAll() returns (ok: bool)
    {
      ok := *;
    }

    /** `rename`: one step, replacing the target. */
    method Rename(from: Path, to: Path) returns (ok: bool)
      requires from in files && from != to
      modifies this
      ensures ok ==> files == (old(files) - {from})[to := old(files)[from]] && history == old(history) + [files]
      ensures !ok ==> files == old(files) && history == old(history)
    {
      if * { return false; }
      files := (files - {from})[to := files[from]];
      history := history + [files];
      return true;
    }

    method Remove(p: Path) returns (ok: bool)
      modifies this
      ensures ok ==> p in old(files) && files == old(files) - {p} && history == old(history) + [files]
      ensures !ok ==> files == old(files) && history == old(history)
    {
      if p !in files { return false; }
      if * { return false; }
      files := files - {p};
      history := history + [files];
      return true;
    }

    /** `write_all` to a file of our own. */
    method WriteAll(p: Path, content: string, ghost before: Files) returns (ok: bool)
      requires p !in before && files == before[p := ""]
      modifies this
      ensures old(history) <= history
      ensures forall k :: |old(history)| <= k < |history| ==> OnlyAdds(before, history[k], p)
      ensures OnlyAdds(before, files, p)
      ensures ok ==> files == before[p := content]
    {
      var done := 0;
      assert content[..0] == "";
      while done < |content|
        invariant 0 <= done <= |content| && files == before[p := content[..done]]
        invariant old(history) <= history
        invariant forall k :: |old(history)| <= k < |history| ==> OnlyAdds(before, history[k], p)
      {
        var n := Append(p, content[done..]);
        if n < 0 { return false; }
        assert content[..done] + content[done..][..n] == content[..done + n];
        done := done + n;
      }
      assert content[..|content|] == content;
      return true;
    }

    /** The closure inside `write_atomic`. */
    method WriteAndRename(dest: Path, temp: Path, content: string) returns (ok: bool)
      requires temp != dest
      modifies this
      ensures old(history) <= history
      ensures forall k :: |old(history)| <= k < |history| ==> Intact(old(files), history[k], dest, temp, content)
      ensures ok ==> temp !in old(files) && files == old(files)[dest := content]
      ensures !ok ==> files == old(files) || (temp !in old(files) && OnlyAdds(old(files), files, temp))
    {
      ghost var before := files;
      var created := CreateNew(temp);
      if !created { return false; }
      var written := WriteAll(temp, content, before);
      if !written { return false; }
      var synced := SyncAll();
      if !synced { return false; }
      ok := Rename(temp, dest);
      if ok { assert before[temp := content] - {temp} == before; }
    }

    /** `write_atomic`. */
    method WriteAtomic(destination: Destination, content: string, uuid: string) returns (r: Result<(), Error>)
      modifies this
      ensures Written(old(files), files, old(history), history, dirs, destination, content, uuid, r)
    {
      if destination.NoFileName? || FullPath(destination.path) in dirs { return Err(UnsafeDestination); }
      if destination.path.dir !in dirs { return Err(WriteFailed); }
      var temp := Temporary(destination.path, uuid);
      TemporaryIsElsewhere(destination.path, uuid);
      var ok := WriteAndRename(destination.path, temp, content);
      if ok { return Ok(()); }
      ghost var left := files;
      var removed := Remove(temp);
      if removed && temp !in old(files) { assert left - {temp} == old(files); }
      return Err(WriteFailed);
    }
  }

  // ----------------------------------------------------------- order of a save

  datatype Format = Json | Markdown

  datatype SaveOutcome = Cancelled | Saved

  function Serialize(r: Record, format: Format): string {
    match format
    case Json => SerializeJson(r)
    case Markdown => SerializeMarkdown(r)
  }

  /** The stored record over time: the last version is the current one, `None` an unavailable one. `taken`
      lists the versions that were read. */
  class RecordStore {
    var versions: seq<Option<Record>>
    var taken: seq<nat>

    ghost predicate Valid()
      reads this
    {
      versions != []
    }

    /** While somebody waits, the record may change any number of times. */
    method Elapse()
      requires Valid()
      modifies `versions
      ensures Valid() && old(versions) <= versions
    {
      var more: seq<Option<Record>> := *;
      versions := versions + more;
    }

    method Get() returns (r: Option<Record>)
      requires Valid()
      modifies `taken
      ensures taken == old(taken) + [|versions| - 1] && r == versions[|versions| - 1]
    {
      taken := taken + [|versions| - 1];
      return versions[|versions| - 1];
    }
  }

  /** `save_after_destination_selection`; `selection` is `None` when the channel closes. A cancelled save reads
      and writes nothing; any other reads one version, current when the destination was selected or later, and
      leaves what an atomic write of that version leaves. */
  method SaveAfterDestinationSelection(store: RecordStore, fs: FileSystem, format: Format,
                                       selection: Option<Option<Destination>>, uuid: string)
    returns (r: Result<SaveOutcome, Error>, ghost selectedAt: nat)
    requires store.Valid()
    modifies store, fs
    ensures store.Valid() && old(|store.versions|) <= selectedAt <= |store.versions|
    ensures selection == None ==> r == Err(WriteFailed)
    ensures selection == Some(None) ==> r == Ok(Cancelled)
    ensures selection == None || selection == Some(None) ==>
              store.taken == old(store.taken) && fs.files == old(fs.files) && fs.history == old(fs.history)
    ensures r == Ok(Cancelled) ==> selection == Some(None)
    ensures selection.Some? && selection.value.Some? ==>
              && |store.taken| == |old(store.taken)| + 1
              && var v := store.taken[|old(store.taken)|];
                 && selectedAt - 1 <= v < |store.versions|
                 && if store.versions[v].None? then
                      && r == Err(SnapshotUnavailable)
                      && fs.files == old(fs.files) && fs.history == old(fs.history)
                    else
                      && r != Ok(Cancelled)
                      && Written(old(fs.files), fs.files, old(fs.history), fs.history, fs.dirs, selection.value.value,
                                 Serialize(store.versions[v].value, format), uuid,
                                 if r.Ok? then Ok(()) else Err(r.error))
  {
    store.Elapse();
    selectedAt := |store.versions|;
    if selection.None? { return Err(WriteFailed), selectedAt; }
    if selection.value.None? { return Ok(Cancelled), selectedAt; }
    store.Elapse();
    var record := store.Get();
    if record.None? { return Err(SnapshotUnavailable), selectedAt; }
    var content := Serialize(record.value, format);
    var written := fs.WriteAtomic(selection.value.value, content, uuid);
    r := match written case Ok(_) => Ok(Saved) case Err(e) => Err(e);
  }
}
