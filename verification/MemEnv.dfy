/** `InMemoryEnv` (helper/memenv/memenv.cpp): the name map, the reference counts and the blocks of all files, kept in
    step with the reference model of `MemFs` by every operation. */
module MemEnvs {
  import opened Bytes
  import opened MemFile
  import M = MemFs

  /** The blocks of each file hold its bytes. */
  ghost predicate FilesOk(bytes: map<FileState, Bytes>)
    reads bytes.Keys`size, bytes.Keys`bytes, bytes.Keys`blocks, set f, a | f in bytes && a in f.blocks :: a
  {
    forall f :: f in bytes ==> f.Valid() && f.bytes == bytes[f]
  }

  /** No block belongs to two files. */
  ghost predicate Separate(files: set<FileState>)
    reads files`blocks
  {
    forall f, g, a :: f in files && g in files && a in f.blocks && a in g.blocks ==> f == g
  }

  /** A file counts one reference for its name and one for each object open on it. */
  ghost predicate RefsOk(s: M.State)
    reads s.bytes.Keys`refs
  {
    forall f :: f in s.bytes ==> f.refs == M.Refs(s, f)
  }

  /** `RandomAccessFileImpl`. */
  class RandomAccessFile {
    const file: FileState

    constructor (file: FileState)
      ensures this.file == file
    {
      this.file := file;
    }

    method Read(offset: nat, n: nat, scratch: array<Byte>) returns (ok: bool, len: nat)
      requires file.Valid() && scratch !in file.blocks && scratch.Length >= n
      modifies scratch
      ensures ok <==> offset <= |file.bytes|
      ensures ok ==> len == (if n < |file.bytes| - offset then n else |file.bytes| - offset) && len <= n
      ensures ok ==> scratch[..len] == file.bytes[offset..offset + len] && scratch[len..] == old(scratch[len..])
      ensures !ok ==> len == 0 && scratch[..] == old(scratch[..])
      ensures file.Valid()
    {
      ok, len := file.Read(offset, n, scratch);
    }
  }

  /** `WritableFileImpl`. */
  class WritableFile {
    const file: FileState

    constructor (file: FileState)
      ensures this.file == file
    {
      this.file := file;
    }
  }

  // ----- References

  lemma OpenRefs(s: M.State, f: FileState, g: FileState)
    ensures M.Refs(M.Open(s, f), g) == M.Refs(s, g) + if g == f then 1 else 0
  {
  }

  lemma CreateRefs(s: M.State, n: M.Name, f: FileState, g: FileState)
    requires M.Inv(s) && n !in s.names && f !in s.bytes
    ensures M.Refs(M.Create(s, n, f), g) == M.Refs(s, g) + if g == f then 1 else 0
    ensures M.Refs(s, f) == 0
  {
    M.NameAdded(s.names, n, f);
  }

  lemma UnnameRefs(s: M.State, n: M.Name, g: FileState)
    requires M.Inv(s) && n in s.names
    ensures M.Refs(M.Unname(s, n), g) == M.Refs(s, g) - (if g == s.names[n] then 1 else 0)
    ensures s.names[n] in s.bytes && (g in M.Unname(s, n).bytes <==> g in s.bytes && (g == s.names[n] ==> M.Refs(s, g) > 1))
    ensures g in M.Unname(s, n).bytes ==> M.Unname(s, n).bytes[g] == s.bytes[g]
    ensures M.Refs(s, s.names[n]) > 0 && M.Unname(s, n).freed == s.freed + if M.Refs(s, s.names[n]) == 1 then [s.names[n]] else []
  {
    M.NameGone(s.names, n);
    assert s.names[n] in s.names.Values;
  }

  lemma CloseRefs(s: M.State, f: FileState, g: FileState)
    requires M.Inv(s) && f in s.holders
    ensures var t := M.Apply(s, M.Close(f));
            M.Refs(t, g) == M.Refs(s, g) - (if g == f then 1 else 0) && f in s.bytes &&
            (g in t.bytes <==> g in s.bytes && (g == f ==> M.Refs(s, g) > 1)) && (g in t.bytes ==> t.bytes[g] == s.bytes[g]) &&
            M.Refs(s, f) > 0 && t.freed == s.freed + if M.Refs(s, f) == 1 then [f] else []
  {
  }

  lemma MoveRefs(s: M.State, src: M.Name, target: M.Name, g: FileState)
    requires M.Inv(s) && src in s.names && src != target
    ensures var t := M.Unname(s, target); var u := M.Rename(s, src, target);
            src in t.names && M.Refs(u, g) == M.Refs(t, g) && u.bytes == t.bytes && u.freed == t.freed &&
            u.names == t.names[target := t.names[src]] - {src}
  {
    hide M.Inv, M.OneName, M.Collect;
    M.UnnameKept(s, target);
    M.InvNames(M.Unname(s, target));
    M.MovedName(M.Unname(s, target).names, src, target);
  }

  lemma UnnameAll(s: M.State, n: M.Name)
    requires M.Inv(s) && n in s.names
    ensures var f, t := s.names[n], M.Unname(s, n);
            M.Inv(t) && t.names == s.names - {n} && f in s.bytes && M.Refs(s, f) > 0 &&
            t.freed == s.freed + (if M.Refs(s, f) == 1 then [f] else []) &&
            forall g :: g in t.bytes ==>
              g in s.bytes && t.bytes[g] == s.bytes[g] && M.Refs(t, g) == M.Refs(s, g) - (if g == f then 1 else 0)
  {
    hide M.Inv, M.Collect, M.Refs;
    var t := M.Unname(s, n);
    M.UnnameKept(s, n);
    M.UnnameNames(s, n);
    UnnameRefs(s, n, s.names[n]);
    forall g | g in t.bytes
      ensures g in s.bytes && t.bytes[g] == s.bytes[g] && M.Refs(t, g) == M.Refs(s, g) - (if g == s.names[n] then 1 else 0)
    {
      UnnameRefs(s, n, g);
    }
  }

  lemma CloseAll(s: M.State, f: FileState)
    requires M.Inv(s) && f in s.holders
    ensures var t := M.Apply(s, M.Close(f));
            M.Inv(t) && t.names == s.names && t.holders == s.holders - multiset{f} && f in s.bytes && M.Refs(s, f) > 0 &&
            t.freed == s.freed + (if M.Refs(s, f) == 1 then [f] else []) && M.SurvivorsKeepBytes(s, t) &&
            M.DeletesIf(s, t, f, s.holders[f] == 1 && f !in s.names.Values) &&
            forall g :: g in t.bytes ==>
              g in s.bytes && t.bytes[g] == s.bytes[g] && M.Refs(t, g) == M.Refs(s, g) - (if g == f then 1 else 0)
  {
    hide M.Inv, M.Collect, M.Refs;
    var t := M.Apply(s, M.Close(f));
    M.CloseKept(s, f);
    M.CloseDoes(s, f);
    CloseRefs(s, f, f);
    forall g | g in t.bytes
      ensures g in s.bytes && t.bytes[g] == s.bytes[g] && M.Refs(t, g) == M.Refs(s, g) - (if g == f then 1 else 0)
    {
      CloseRefs(s, f, g);
    }
  }

  lemma MoveAll(s: M.State, src: M.Name, target: M.Name)
    requires M.Inv(s) && src in s.names && src != target
    ensures var t, u := M.Unname(s, target), M.Rename(s, src, target);
            src in t.names && u.bytes == t.bytes && u.freed == t.freed && u.names == t.names[target := t.names[src]] - {src} &&
            forall g :: g in t.bytes ==> M.Refs(u, g) == M.Refs(t, g)
  {
    hide M.Inv, M.Unname, M.Rename, M.Refs;
    var t := M.Unname(s, target);
    MoveRefs(s, src, target, s.names[src]);
    forall g | g in t.bytes
      ensures M.Refs(M.Rename(s, src, target), g) == M.Refs(t, g)
    {
      MoveRefs(s, src, target, g);
    }
  }

  class InMemoryEnv {
    var fileMap: map<M.Name, FileState>
    var deleted: seq<FileState>   // the files that `Unref` deleted, in order
    ghost var state: M.State

    ghost predicate Valid()
      reads this, state.bytes.Keys, set f, a | f in state.bytes && a in f.blocks :: a
    {
      M.Inv(state) && fileMap == state.names && FilesOk(state.bytes) && Separate(state.bytes.Keys) && RefsOk(state) &&
      deleted == state.freed
    }

    constructor ()
      ensures Valid() && state == M.State(map[], map[], multiset{}, [])
    {
      fileMap, deleted := map[], [];
      state := M.State(map[], map[], multiset{}, []);
    }

    method AddRef(f: FileState, ghost s: M.State)
      requires f in s.bytes && RefsOk(s)
      modifies f`refs
      ensures RefsOk(M.Open(s, f))
    {
      f.refs := f.refs + 1;
      forall g | g in s.bytes
        ensures g.refs == M.Refs(M.Open(s, f), g)
      {
        OpenRefs(s, f, g);
      }
    }

    /** `Ref`, for an object that opens the file. */
    method Attach(f: FileState)
      requires Valid() && f in state.bytes
      modifies `state, f`refs
      ensures Valid() && state == M.Open(old(state), f)
    {
      hide M.Inv, RefsOk, FilesOk, Separate;
      M.OpenKept(state, f);
      ghost var s := state;
      AddRef(f, s);
      assert FilesOk(s.bytes);
      state := M.Open(s, f);
    }

    method NewSequentialFile(n: M.Name) returns (r: SequentialFile?)
      requires Valid()
      modifies `state, state.bytes.Keys`refs
      ensures Valid() && state == M.Apply(old(state), M.OpenReader(n))
      ensures state.names == old(state.names) && state.bytes == old(state.bytes)
      ensures state.holders == old(state.holders) + if r != null then multiset{r.file} else multiset{}
      ensures r != null <==> n in old(state.names)
      ensures r != null ==> fresh(r) && r.file == old(state.names)[n] && r.pos == 0
    {
      hide M.Inv, RefsOk, FilesOk, Separate;
      M.OpenReaderDoes(state, n);
      if n !in fileMap {
        return null;
      }
      M.NamedExists(state, n);
      r := new SequentialFile(fileMap[n]);
      Attach(fileMap[n]);
    }

    method NewRandomAccessFile(n: M.Name) returns (r: RandomAccessFile?)
      requires Valid()
      modifies `state, state.bytes.Keys`refs
      ensures Valid() && state == M.Apply(old(state), M.OpenReader(n))
      ensures state.names == old(state.names) && state.bytes == old(state.bytes)
      ensures state.holders == old(state.holders) + if r != null then multiset{r.file} else multiset{}
      ensures r != null <==> n in old(state.names)
      ensures r != null ==> fresh(r) && r.file == old(state.names)[n]
    {
      hide M.Inv, RefsOk, FilesOk, Separate;
      M.OpenReaderDoes(state, n);
      if n !in fileMap {
        return null;
      }
      M.NamedExists(state, n);
      r := new RandomAccessFile(fileMap[n]);
      Attach(fileMap[n]);
    }

    // ----- Writers

    lemma FreshApart(bytes: map<FileState, Bytes>, f: FileState)
      requires FilesOk(bytes) && Separate(bytes.Keys) && f !in bytes && f.Valid() && f.bytes == [] && f.blocks == []
      ensures FilesOk(bytes[f := []]) && Separate(bytes[f := []].Keys)
    {
      hide FileState.Valid;
    }

    lemma NewRefs(s: M.State, n: M.Name, f: FileState)
      requires M.Inv(s) && RefsOk(s) && n !in s.names && f !in s.bytes && f.refs == 1
      ensures RefsOk(M.Create(s, n, f))
    {
      forall g | g in M.Create(s, n, f).bytes
        ensures g.refs == M.Refs(M.Create(s, n, f), g)
      {
        CreateRefs(s, n, f, g);
      }
    }

    /** A new file object, not yet in the map. */
    method NewFile() returns (f: FileState)
      requires Valid()
      ensures fresh(f) && f.Valid() && f.refs == 1 && f.bytes == [] && f.blocks == []
      ensures Valid() && f !in state.bytes && f !in state.freed
    {
      hide M.Inv, RefsOk, FilesOk, Separate;
      ghost var s := state;
      f := new FileState();
      assert f !in s.bytes && f !in s.freed;
      f.refs := f.refs + 1;
    }

    /** A new file under a new name. */
    method CreateFile(n: M.Name) returns (f: FileState)
      requires Valid() && n !in fileMap
      modifies `fileMap, `state
      ensures fresh(f) && f !in old(state.bytes) && f !in old(state.freed) && Valid() && state == M.Create(old(state), n, f)
    {
      hide M.Inv, RefsOk, FilesOk, Separate, FileState.Valid;
      f := NewFile();
      M.CreateKept(state, n, f);
      FreshApart(state.bytes, f);
      NewRefs(state, n, f);
      fileMap := fileMap[n := f];
      state := M.Create(state, n, f);
    }

    /** `Truncate`, seen from the file system. */
    method TruncateFile(f: FileState)
      requires Valid() && f in state.bytes
      modifies `state, f`size, f`bytes, f`blocks
      ensures Valid() && state == old(state).(bytes := old(state).bytes[f := []])
    {
      hide M.Inv, RefsOk, FilesOk, Separate, FileState.Valid;
      ghost var s := state;
      M.BytesKept(s, f, []);
      SameRefs(s, f, []);
      EmptyFile(f, s.bytes);
      ghost var t := s.(bytes := s.bytes[f := []]);
      assert RefsOk(t);
      state := t;
    }

    lemma SameRefs(s: M.State, f: FileState, bytes: Bytes)
      requires f in s.bytes
      ensures RefsOk(s) ==> RefsOk(s.(bytes := s.bytes[f := bytes]))
    {
      forall g | g in s.bytes
        ensures M.Refs(s.(bytes := s.bytes[f := bytes]), g) == M.Refs(s, g)
      {
      }
    }

    method EmptyFile(f: FileState, ghost bytes: map<FileState, Bytes>)
      requires FilesOk(bytes) && Separate(bytes.Keys) && f in bytes
      modifies f`size, f`bytes, f`blocks
      ensures FilesOk(bytes[f := []]) && Separate(bytes[f := []].Keys)
    {
      hide Holds;
      f.Truncate();
    }

    method NewWritableFile(n: M.Name) returns (w: WritableFile)
      requires Valid()
      modifies `state, `fileMap, state.bytes.Keys
      ensures Valid() && (n !in old(state.names) ==> fresh(w.file)) && fresh(w)
      ensures M.Allowed(old(state), M.OpenWriter(n, w.file)) && state == M.Apply(old(state), M.OpenWriter(n, w.file))
      ensures n in old(state.names) ==> w.file == old(state.names)[n]
      ensures state.names == old(state.names)[n := w.file] && state.bytes == old(state.bytes)[w.file := []]
      ensures state.holders == old(state.holders) + multiset{w.file}
    {
      hide M.Inv, RefsOk, FilesOk, Separate, FileState.Valid;
      ghost var s := state;
      var file;
      if n !in fileMap {
        file := CreateFile(n);
      } else {
        M.NamedExists(state, n);
        file := fileMap[n];
        TruncateFile(file);
      }
      w := new WritableFile(file);
      Attach(file);
      M.OpenWriterDoes(s, n, file);
    }

    method NewAppendableFile(n: M.Name) returns (w: WritableFile)
      requires Valid()
      modifies `state, `fileMap, state.bytes.Keys`refs
      ensures Valid() && (n !in old(state.names) ==> fresh(w.file)) && fresh(w)
      ensures M.Allowed(old(state), M.OpenAppender(n, w.file)) && state == M.Apply(old(state), M.OpenAppender(n, w.file))
      ensures n in old(state.names) ==> w.file == old(state.names)[n]
      ensures state.names == old(state.names)[n := w.file] && state.holders == old(state.holders) + multiset{w.file}
      ensures state.bytes == if n in old(state.names) then old(state.bytes) else old(state.bytes)[w.file := []]
    {
      hide M.Inv, RefsOk, FilesOk, Separate, FileState.Valid;
      ghost var s := state;
      var file;
      if n !in fileMap {
        file := CreateFile(n);
      } else {
        M.NamedExists(state, n);
        file := fileMap[n];
      }
      w := new WritableFile(file);
      Attach(file);
      M.OpenAppenderDoes(s, n, file);
    }

    /** `WritableFileImpl::Append`, seen from the file system. */
    method Append(w: WritableFile, data: Bytes)
      requires Valid() && w.file in state.holders
      modifies `state, w.file`size, w.file`bytes, w.file`blocks, set a | a in w.file.blocks
      ensures Valid() && state == M.Apply(old(state), M.Append(w.file, data)) && w.file in old(state.bytes)
      ensures state == old(state).(bytes := old(state.bytes)[w.file := old(state.bytes)[w.file] + data])
    {
      hide M.Inv, RefsOk, FilesOk, Separate, FileState.Valid;
      var f := w.file;
      M.HolderExists(state, f);
      ghost var s, bytes := state, state.bytes[f] + data;
      M.BytesKept(s, f, bytes);
      SameRefs(s, f, bytes);
      LengthenFile(f, data, s.bytes);
      ghost var t := s.(bytes := s.bytes[f := bytes]);
      assert RefsOk(t);
      state := t;
    }

    method LengthenFile(f: FileState, data: Bytes, ghost bytes: map<FileState, Bytes>)
      requires FilesOk(bytes) && Separate(bytes.Keys) && f in bytes
      modifies f`size, f`bytes, f`blocks, set a | a in f.blocks
      ensures FilesOk(bytes[f := bytes[f] + data]) && Separate(bytes[f := bytes[f] + data].Keys)
    {
      hide Holds;
      f.Append(data);
    }

    // ----- References that go

    /** `Unref`: the count goes down and never below zero; at zero the file is deleted. */
    method DropRef(f: FileState, ghost s: M.State, ghost t: M.State)
      requires RefsOk(s) && f in s.bytes && M.Refs(s, f) > 0 && deleted == s.freed
      requires forall g :: g in t.bytes ==> g in s.bytes && M.Refs(t, g) == M.Refs(s, g) - (if g == f then 1 else 0)
      requires t.freed == s.freed + if M.Refs(s, f) == 1 then [f] else []
      modifies f`refs, `deleted
      ensures RefsOk(t) && f.refs >= 0 && deleted == t.freed
    {
      f.refs := f.refs - 1;
      if f.refs <= 0 {
        deleted := deleted + [f];
      }
    }

    /** Fewer files, with the same bytes. */
    lemma FewerFiles(bytes: map<FileState, Bytes>, fewer: map<FileState, Bytes>)
      requires FilesOk(bytes) && Separate(bytes.Keys)
      requires forall f :: f in fewer ==> f in bytes && fewer[f] == bytes[f]
      ensures FilesOk(fewer) && Separate(fewer.Keys)
    {
      hide FileState.Valid;
    }

    /** The destructor of an open file object. */
    method Close(f: FileState)
      requires Valid() && f in state.holders
      modifies `state, `deleted, f`refs
      ensures Valid() && state == M.Apply(old(state), M.Close(f))
      ensures state.names == old(state.names) && state.holders == old(state.holders) - multiset{f}
      ensures M.SurvivorsKeepBytes(old(state), state)
      ensures M.DeletesIf(old(state), state, f, old(state.holders)[f] == 1 && f !in old(state.names.Values))
    {
      hide M.Inv, RefsOk, FilesOk, Separate, M.Apply, M.Refs, M.SurvivorsKeepBytes, M.DeletesIf;
      ghost var s, t := state, M.Apply(state, M.Close(f));
      CloseAll(s, f);
      FewerFiles(s.bytes, t.bytes);
      DropRef(f, s, t);
      assert FilesOk(t.bytes);
      state := t;
    }

    /** `RemoveFileInternal`. */
    method RemoveFileInternal(n: M.Name)
      requires Valid()
      modifies `state, `fileMap, `deleted, state.bytes.Keys`refs
      ensures Valid() && state == M.Unname(old(state), n)
    {
      hide M.Inv, RefsOk, FilesOk, Separate, M.Collect;
      if n !in fileMap {
        return;
      }
      ghost var s, t := state, M.Unname(state, n);
      UnnameAll(s, n);
      hide M.Unname;
      FewerFiles(s.bytes, t.bytes);
      DropRef(fileMap[n], s, t);
      assert FilesOk(t.bytes);
      fileMap := fileMap - {n};
      state := t;
    }

    method RemoveFile(n: M.Name) returns (ok: bool)
      requires Valid()
      modifies `state, `fileMap, `deleted, state.bytes.Keys`refs
      ensures Valid() && state == M.Apply(old(state), M.Remove(n)) && (ok <==> n in old(state.names))
      ensures state.names == old(state.names) - {n} && M.SurvivorsKeepBytes(old(state), state)
      ensures ok ==>
                var f := old(state.names)[n]; M.DeletesIf(old(state), state, f, f !in old(state.holders))
      ensures !ok ==> state == old(state)
    {
      hide M.Inv, RefsOk, FilesOk, Separate, M.SurvivorsKeepBytes, M.DeletesIf;
      M.RemoveDoes(state, n);
      if n !in fileMap {
        return false;
      }
      RemoveFileInternal(n);
      ok := true;
    }

    /** What the model says of a rename. */
    lemma Renaming(s: M.State, src: M.Name, target: M.Name)
      requires M.Inv(s)
      ensures var t := M.Apply(s, M.Renames(src, target));
              t == M.Rename(s, src, target) && (src !in s.names ==> t == s) &&
              (src in s.names && src == target ==> t.names == s.names - {src} && t == M.Unname(s, target)) &&
              (src in s.names && src != target ==>
                 t.names == (s.names - {src, target})[target := s.names[src]] && M.SurvivorsKeepBytes(s, t) &&
                 (target !in s.names ==> t.bytes == s.bytes) &&
                 (target in s.names ==> M.DeletesIf(s, t, s.names[target], s.names[target] !in s.holders)))
    {
      M.RenameElse(s, src, target);
      M.RemoveDoes(s, src);
      if src in s.names && src != target {
        M.RenameDoes(s, src, target);
      }
      if src in s.names && src == target {
        M.RenameToItselfRemoves(s, src);
      }
      hide M.Inv;
    }

    /** `RenameFile`; `fileMap[src]` after the removal of the target is a null pointer when the names are the same. */
    method RenameFile(src: M.Name, target: M.Name) returns (ok: bool)
      requires Valid()
      modifies `state, `fileMap, `deleted, state.bytes.Keys`refs
      ensures Valid() && state == M.Apply(old(state), M.Renames(src, target)) && (ok <==> src in old(state.names))
      ensures ok && src != target ==>
                state.names == (old(state.names) - {src, target})[target := old(state.names)[src]] &&
                M.SurvivorsKeepBytes(old(state), state) && (target !in old(state.names) ==> state.bytes == old(state.bytes))
      ensures ok && src != target && target in old(state.names) ==>
                var f := old(state.names)[target]; M.DeletesIf(old(state), state, f, f !in old(state.holders))
      ensures ok && src == target ==> state.names == old(state.names) - {src}
      ensures !ok ==> state == old(state)
    {
      hide M.Inv, RefsOk, FilesOk, Separate, M.Unname, M.Rename, M.SurvivorsKeepBytes, M.DeletesIf;
      Renaming(state, src, target);
      if src !in fileMap {
        return false;
      }
      ok := true;
      ghost var s := state;
      M.RenameKept(s, src, target);
      M.UnnameNames(s, target);
      RemoveFileInternal(target);
      if src in fileMap {
        MoveName(src, target, s);
      }
    }

    /** The assignments of `RenameFile`, once the target is free. */
    method MoveName(src: M.Name, target: M.Name, ghost s: M.State)
      requires Valid() && M.Inv(s) && src in s.names && src != target && state == M.Unname(s, target) && src in fileMap
      modifies `state, `fileMap
      ensures Valid() && state == M.Rename(s, src, target)
    {
      hide M.Inv, RefsOk, FilesOk, Separate, M.Unname, M.Rename, M.Refs;
      M.RenameKept(s, src, target);
      MoveAll(s, src, target);
      ghost var u := M.Rename(s, src, target);
      MovedRefs(state, u);
      fileMap := fileMap[target := fileMap[src]];
      fileMap := fileMap - {src};
      state := u;
    }

    lemma MovedRefs(s: M.State, t: M.State)
      requires RefsOk(s) && t.bytes == s.bytes && forall g :: g in s.bytes ==> M.Refs(t, g) == M.Refs(s, g)
      ensures RefsOk(t)
    {
    }

    method FileExists(n: M.Name) returns (r: bool)
      requires Valid()
      ensures r <==> n in state.names
    {
      r := n in fileMap;
    }

    method GetFileSize(n: M.Name) returns (ok: bool, size: nat)
      requires Valid()
      ensures ok <==> n in state.names
      ensures ok ==> state.names[n] in state.bytes && size == |state.bytes[state.names[n]]|
    {
      if n !in fileMap {
        return false, 0;
      }
      M.NamedExists(state, n);
      ok, size := true, fileMap[n].size;
    }
  }
}
