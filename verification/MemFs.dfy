/** The in-memory file system (helper/memenv/memenv.cpp) as a reference model: names, contents, and how many file objects
    are open on each file.  No reference counts and no blocks here; `MemEnvs.InMemoryEnv` implements this model with
    those. */
module MemFs {
  import opened Bytes
  import opened MemFile

  type Name = string

  /** `bytes` has the files that exist, named or not; `freed` those that were deleted, in order. */
  datatype State = State(
    names: map<Name, FileState>, bytes: map<FileState, Bytes>, holders: multiset<FileState>, freed: seq<FileState>)

  /** The references to a file: its name, and the objects open on it. */
  function Refs(s: State, f: FileState): nat {
    (if f in s.names.Values then 1 else 0) + s.holders[f]
  }

  /** A file that lost its last reference is deleted. */
  function Collect(s: State, f: FileState): State {
    if Refs(s, f) == 0 then s.(bytes := s.bytes - {f}, freed := s.freed + [f]) else s
  }

  function Open(s: State, f: FileState): State {
    s.(holders := s.holders + multiset{f})
  }

  function Create(s: State, n: Name, f: FileState): State {
    s.(names := s.names[n := f], bytes := s.bytes[f := []])
  }

  /** `RemoveFileInternal`. */
  function Unname(s: State, n: Name): State {
    if n in s.names then Collect(s.(names := s.names - {n}), s.names[n]) else s
  }

  /** The assignments of `RenameFile`, in their order. */
  function Rename(s: State, src: Name, target: Name): State {
    if src !in s.names then s
    else
      var t := Unname(s, target);
      if src in t.names then t.(names := t.names[target := t.names[src]] - {src}) else t
  }

  datatype Op =
    | OpenReader(n: Name)
    | OpenWriter(n: Name, f: FileState)
    | OpenAppender(n: Name, f: FileState)
    | Close(f: FileState)
    | Append(f: FileState, data: Bytes)
    | Remove(n: Name)
    | Renames(src: Name, target: Name)

  /** A new file is a new object; only open files are closed and written. */
  predicate Allowed(s: State, op: Op) {
    match op
    case OpenWriter(n, f) => n !in s.names ==> f !in s.bytes && f !in s.freed
    case OpenAppender(n, f) => n !in s.names ==> f !in s.bytes && f !in s.freed
    case Close(f) => f in s.holders
    case Append(f, _) => f in s.holders
    case _ => true
  }

  function Apply(s: State, op: Op): State
    requires Allowed(s, op)
  {
    match op
    case OpenReader(n) => if n in s.names then Open(s, s.names[n]) else s
    case OpenWriter(n, f) =>
      if n in s.names then Open(s.(bytes := s.bytes[s.names[n] := []]), s.names[n]) else Open(Create(s, n, f), f)
    case OpenAppender(n, f) => if n in s.names then Open(s, s.names[n]) else Open(Create(s, n, f), f)
    case Close(f) => Collect(s.(holders := s.holders - multiset{f}), f)
    case Append(f, data) => if f in s.bytes then s.(bytes := s.bytes[f := s.bytes[f] + data]) else s
    case Remove(n) => Unname(s, n)
    case Renames(src, target) => Rename(s, src, target)
  }

  // ----- What every operation keeps

  /** A file has at most one name. */
  ghost predicate OneName(names: map<Name, FileState>) {
    forall m, n :: m in names && n in names && names[m] == names[n] ==> m == n
  }

  /** No file was deleted twice, or is still there. */
  ghost predicate FreedOk(s: State) {
    (forall i, j :: 0 <= i < j < |s.freed| ==> s.freed[i] != s.freed[j]) &&
    forall i :: 0 <= i < |s.freed| ==> s.freed[i] !in s.bytes
  }

  /** The files that exist are exactly those with a name or an open object. */
  ghost predicate Inv(s: State) {
    OneName(s.names) && FreedOk(s) && (forall f :: f in s.bytes ==> f in s.names.Values || f in s.holders) &&
    (forall f :: f in s.names.Values ==> f in s.bytes) && (forall f :: f in s.holders ==> f in s.bytes)
  }

  lemma NameGone(names: map<Name, FileState>, n: Name)
    requires OneName(names) && n in names
    ensures OneName(names - {n}) && (names - {n}).Values == names.Values - {names[n]}
  {
    forall f | f in names.Values && f != names[n]
      ensures f in (names - {n}).Values
    {
      var m :| m in names && names[m] == f;
      assert (names - {n})[m] == f;
    }
  }

  lemma NameAdded(names: map<Name, FileState>, n: Name, f: FileState)
    requires OneName(names) && n !in names && f !in names.Values
    ensures OneName(names[n := f]) && names[n := f].Values == names.Values + {f}
  {
    forall g | g in names.Values
      ensures g in names[n := f].Values
    {
      var m :| m in names && names[m] == g;
      assert names[n := f][m] == g;
    }
    assert names[n := f][n] == f;
  }

  lemma UnnameKept(s: State, n: Name)
    requires Inv(s)
    ensures Inv(Unname(s, n)) && n !in Unname(s, n).names && Unname(s, n).holders == s.holders
    ensures forall m :: m in s.names && m != n ==> m in Unname(s, n).names && Unname(s, n).names[m] == s.names[m]
  {
    if n in s.names {
      NameGone(s.names, n);
    }
  }

  lemma SameFiles(s: State, t: State)
    requires Inv(s) && OneName(t.names) && t.names.Values == s.names.Values
    requires t.bytes == s.bytes && t.holders == s.holders && t.freed == s.freed
    ensures Inv(t)
  {
  }

  /** Moving a file from one name to another that is free. */
  lemma MovedName(names: map<Name, FileState>, src: Name, target: Name)
    requires OneName(names) && src in names && target !in names
    ensures names[target := names[src]] - {src} == (names - {src})[target := names[src]]
    ensures OneName(names[target := names[src]] - {src}) && (names[target := names[src]] - {src}).Values == names.Values
  {
    NameGone(names, src);
    NameAdded(names - {src}, target, names[src]);
    assert names[target := names[src]] - {src} == (names - {src})[target := names[src]];
    assert names[src] in names.Values;
  }

  /** Renaming to another name moves the file there and leaves nothing under the old name. */
  lemma RenameMoves(s: State, src: Name, target: Name)
    requires Inv(s) && src in s.names && src != target
    ensures var t := Rename(s, src, target);
            Inv(t) && src !in t.names && target in t.names && t.names[target] == s.names[src] && t.holders == s.holders &&
            t.names == (s.names - {src, target})[target := s.names[src]]
  {
    hide Inv, OneName, Collect;
    var t := Unname(s, target);
    UnnameKept(s, target);
    InvNames(t);
    MovedName(t.names, src, target);
    MovedNames(s.names, src, target);
    assert t.names == s.names - {target} by {
      UnnameNames(s, target);
    }
    SameFiles(t, Rename(s, src, target));
  }

  lemma InvNames(s: State)
    requires Inv(s)
    ensures OneName(s.names)
  {
  }

  lemma UnnameNames(s: State, n: Name)
    ensures Unname(s, n).names == s.names - {n} && forall f :: f in Unname(s, n).bytes ==> f in s.bytes
  {
  }

  lemma MovedNames(names: map<Name, FileState>, src: Name, target: Name)
    requires src in names && src != target
    ensures (names - {target})[target := names[src]] - {src} == (names - {target} - {src})[target := names[src]]
    ensures names - {target} - {src} == names - {src, target}
  {
  }

  /** Renaming a file to its own name removes it. */
  lemma RenameToItselfRemoves(s: State, n: Name)
    requires Inv(s) && n in s.names
    ensures Rename(s, n, n) == Unname(s, n) && n !in Rename(s, n, n).names
  {
    UnnameKept(s, n);
  }

  /** A rename that finds its source leaves the file under the new name exactly when the names differ. */
  lemma RenameKeepsFileIff(s: State, src: Name, target: Name)
    requires Inv(s) && src in s.names
    ensures target in Rename(s, src, target).names && Rename(s, src, target).names[target] == s.names[src] <==> src != target
  {
    if src != target {
      RenameMoves(s, src, target);
    } else {
      RenameToItselfRemoves(s, src);
    }
  }

  lemma CreateKept(s: State, n: Name, f: FileState)
    requires Inv(s) && n !in s.names && f !in s.bytes && f !in s.freed
    ensures Inv(Create(s, n, f)) && f in Create(s, n, f).bytes
  {
    NameAdded(s.names, n, f);
    hide OneName;
  }

  lemma OpenKept(s: State, f: FileState)
    requires Inv(s) && f in s.bytes
    ensures Inv(Open(s, f))
  {
    hide OneName;
  }

  lemma BytesKept(s: State, f: FileState, bytes: Bytes)
    requires Inv(s) && f in s.bytes
    ensures Inv(s.(bytes := s.bytes[f := bytes]))
  {
    hide OneName;
  }

  lemma CloseKept(s: State, f: FileState)
    requires Inv(s) && f in s.holders
    ensures Inv(Collect(s.(holders := s.holders - multiset{f}), f))
  {
    hide OneName;
  }

  lemma RenameKept(s: State, src: Name, target: Name)
    requires Inv(s)
    ensures Inv(Rename(s, src, target))
  {
    hide Inv;
    if src in s.names && src != target {
      RenameMoves(s, src, target);
    } else if src in s.names {
      RenameToItselfRemoves(s, src);
      UnnameKept(s, src);
    }
  }

  lemma NamedExists(s: State, n: Name)
    requires Inv(s) && n in s.names
    ensures s.names[n] in s.bytes
  {
    assert s.names[n] in s.names.Values;
  }

  lemma StepKept(s: State, op: Op)
    requires Inv(s) && Allowed(s, op)
    ensures Inv(Apply(s, op))
  {
    hide Inv, Collect, Rename, Unname, Open, Create;
    match op
    case OpenReader(n) =>
      if n in s.names {
        NamedExists(s, n);
        OpenKept(s, s.names[n]);
      }
    case OpenWriter(n, f) =>
      if n in s.names {
        NamedExists(s, n);
        BytesKept(s, s.names[n], []);
        OpenKept(s.(bytes := s.bytes[s.names[n] := []]), s.names[n]);
      } else {
        CreateKept(s, n, f);
        OpenKept(Create(s, n, f), f);
      }
    case OpenAppender(n, f) =>
      if n in s.names {
        NamedExists(s, n);
        OpenKept(s, s.names[n]);
      } else {
        CreateKept(s, n, f);
        OpenKept(Create(s, n, f), f);
      }
    case Close(f) => CloseKept(s, f);
    case Append(f, data) =>
      if f in s.bytes {
        BytesKept(s, f, s.bytes[f] + data);
      }
    case Remove(n) => UnnameKept(s, n);
    case Renames(src, target) => RenameKept(s, src, target);
  }

  // ----- What each operation does

  /** Files that are still there have the bytes they had. */
  ghost predicate SurvivorsKeepBytes(s: State, t: State) {
    forall f :: f in t.bytes ==> f in s.bytes && t.bytes[f] == s.bytes[f]
  }

  /** Exactly the file f is deleted, and that only if the condition holds. */
  ghost predicate DeletesIf(s: State, t: State, f: FileState, condition: bool) {
    t.freed == (if condition then s.freed + [f] else s.freed) && t.bytes == (if condition then s.bytes - {f} else s.bytes)
  }

  lemma UnnameDoes(s: State, n: Name)
    requires Inv(s) && n in s.names
    ensures var t := Unname(s, n);
            t.names == s.names - {n} && t.holders == s.holders && DeletesIf(s, t, s.names[n], s.names[n] !in s.holders)
  {
    NameGone(s.names, n);
  }

  /** `RenameFile`: the target name stands for the source's file, the source name is gone, and so is the file the target name
      stood for unless it is open; other names, and the bytes of all files that remain, stay. */
  lemma RenameDoes(s: State, src: Name, target: Name)
    requires Inv(s) && src in s.names && src != target
    ensures var t := Apply(s, Renames(src, target));
            t.names == (s.names - {src, target})[target := s.names[src]] && t.holders == s.holders && SurvivorsKeepBytes(s, t) &&
            (target !in s.names ==> t.bytes == s.bytes && t.freed == s.freed) &&
            (target in s.names ==> DeletesIf(s, t, s.names[target], s.names[target] !in s.holders))
  {
    RenameMoves(s, src, target);
    if target in s.names {
      UnnameDoes(s, target);
    }
    hide Inv;
  }

  /** `RenameFile` fails for an unknown source, and changes nothing; a file renamed to its own name loses it. */
  lemma RenameElse(s: State, src: Name, target: Name)
    requires Inv(s)
    ensures src !in s.names ==> Apply(s, Renames(src, target)) == s
    ensures src in s.names && src == target ==> Apply(s, Renames(src, target)) == Apply(s, Remove(src))
  {
    if src in s.names && src == target {
      RenameToItselfRemoves(s, src);
    }
  }

  /** `RemoveFile`: the name goes, the file too unless it is open; other names and the bytes of other files stay. */
  lemma RemoveDoes(s: State, n: Name)
    requires Inv(s)
    ensures var t := Apply(s, Remove(n));
            t.names == s.names - {n} && t.holders == s.holders && SurvivorsKeepBytes(s, t) &&
            (n !in s.names ==> t == s) && (n in s.names ==> DeletesIf(s, t, s.names[n], s.names[n] !in s.holders))
  {
    if n in s.names {
      UnnameDoes(s, n);
    }
  }

  /** `NewWritableFile`: the name stands for a file without bytes, the one it stood for or a new one, open once more; other
      names and the bytes of other files stay. */
  lemma OpenWriterDoes(s: State, n: Name, f: FileState)
    requires Inv(s) && Allowed(s, OpenWriter(n, f))
    ensures var t := Apply(s, OpenWriter(n, f)); var file := if n in s.names then s.names[n] else f;
            t.names == s.names[n := file] && t.bytes == s.bytes[file := []] && t.freed == s.freed &&
            t.holders == s.holders + multiset{file}
  {
    assert n in s.names ==> s.names[n := s.names[n]] == s.names;
  }

  /** `NewAppendableFile`: the same, but a file that is there keeps its bytes. */
  lemma OpenAppenderDoes(s: State, n: Name, f: FileState)
    requires Inv(s) && Allowed(s, OpenAppender(n, f))
    ensures var t := Apply(s, OpenAppender(n, f)); var file := if n in s.names then s.names[n] else f;
            t.names == s.names[n := file] && t.bytes == (if n in s.names then s.bytes else s.bytes[file := []]) &&
            t.freed == s.freed && t.holders == s.holders + multiset{file}
  {
    assert n in s.names ==> s.names[n := s.names[n]] == s.names;
  }

  /** Opening for reading: the file is open once more; an unknown name changes nothing. */
  lemma OpenReaderDoes(s: State, n: Name)
    ensures var t := Apply(s, OpenReader(n));
            t.names == s.names && t.bytes == s.bytes && t.freed == s.freed &&
            t.holders == if n in s.names then s.holders + multiset{s.names[n]} else s.holders
  {
  }

  /** Appending through an open object: its file has the data behind its bytes, and nothing else changes. */
  lemma AppendDoes(s: State, f: FileState, data: Bytes)
    requires Inv(s) && f in s.holders
    ensures f in s.bytes && Apply(s, Append(f, data)) == s.(bytes := s.bytes[f := s.bytes[f] + data])
  {
  }

  /** Closing an object: its file is open once less, and gone exactly if that was its last reference. */
  lemma CloseDoes(s: State, f: FileState)
    requires Inv(s) && f in s.holders
    ensures var t := Apply(s, Close(f));
            t.names == s.names && t.holders == s.holders - multiset{f} && SurvivorsKeepBytes(s, t) &&
            DeletesIf(s, t, f, s.holders[f] == 1 && f !in s.names.Values)
  {
  }

  // ----- Whole runs

  ghost predicate Run(states: seq<State>, ops: seq<Op>) {
    |states| == |ops| + 1 && states[0] == State(map[], map[], multiset{}, []) &&
    forall i {:trigger ops[i]} :: 0 <= i < |ops| ==> Allowed(states[i], ops[i]) && states[i + 1] == Apply(states[i], ops[i])
  }

  lemma RunStep(states: seq<State>, ops: seq<Op>, i: nat)
    requires Run(states, ops) && 0 < i < |states|
    ensures |states| == |ops| + 1 && Allowed(states[i - 1], ops[i - 1]) && states[i] == Apply(states[i - 1], ops[i - 1])
  {
    var k := i - 1;
    assert Allowed(states[k], ops[k]) && states[k + 1] == Apply(states[k], ops[k]);
  }

  lemma {:induction false} RunKept(states: seq<State>, ops: seq<Op>, i: nat)
    requires Run(states, ops) && i < |states|
    ensures Inv(states[i])
    decreases i
  {
    if i > 0 {
      hide Apply, Inv, Allowed;
      RunKept(states, ops, i - 1);
      RunStep(states, ops, i);
      StepKept(states[i - 1], ops[i - 1]);
    }
  }

  /** An operation that may change the bytes of an existing file: an append through an open object, or opening the file
      for writing under its name. */
  predicate Writes(s: State, op: Op, f: FileState) {
    (op.Append? && op.f == f) || (op.OpenWriter? && op.n in s.names && s.names[op.n] == f)
  }

  lemma StepKeepsBytes(s: State, op: Op, f: FileState)
    requires Inv(s) && Allowed(s, op) && f in s.bytes && f in Apply(s, op).bytes && !Writes(s, op, f)
    ensures Apply(s, op).bytes[f] == s.bytes[f]
  {
  }

  /** A file that has lost its name never gets one again. */
  lemma StepKeepsUnnamed(s: State, op: Op, f: FileState)
    requires Inv(s) && Allowed(s, op) && f in s.bytes && f !in s.names.Values
    ensures f !in Apply(s, op).names.Values
  {
    match op
    case OpenWriter(n, g) =>
      if n !in s.names {
        NameAdded(s.names, n, g);
      }
    case OpenAppender(n, g) =>
      if n !in s.names {
        NameAdded(s.names, n, g);
      }
    case Remove(n) =>
      if n in s.names {
        NameGone(s.names, n);
      }
    case Renames(src, target) => RenameKeepsUnnamed(s, src, target, f);
    case _ =>
  }

  lemma RenameKeepsUnnamed(s: State, src: Name, target: Name, f: FileState)
    requires Inv(s) && f !in s.names.Values
    ensures f !in Rename(s, src, target).names.Values
  {
    if src in s.names && src != target {
      RenameMoves(s, src, target);
    } else if src in s.names {
      RenameToItselfRemoves(s, src);
      NameGone(s.names, src);
    }
  }

  lemma HeldExists(states: seq<State>, ops: seq<Op>, i: nat, f: FileState)
    requires Run(states, ops) && i < |states| && f in states[i].holders
    ensures f in states[i].bytes
  {
    RunKept(states, ops, i);
  }

  /** While a file stays open and nobody writes it, its readers see the same bytes, whatever is done to names: removing
      it, renaming it, renaming another file over it. */
  lemma {:induction false} ReadersSeeSameBytes(states: seq<State>, ops: seq<Op>, i: nat, j: nat, f: FileState)
    requires Run(states, ops) && i <= j < |states|
    requires forall k :: i <= k <= j ==> f in states[k].holders
    requires forall k :: i <= k < j ==> !Writes(states[k], ops[k], f)
    ensures f in states[i].bytes && f in states[j].bytes && states[j].bytes[f] == states[i].bytes[f]
    decreases j
  {
    hide Apply, Inv, Allowed, Writes, Run;
    HeldExists(states, ops, i, f);
    HeldExists(states, ops, j, f);
    if i < j {
      RunStep(states, ops, j);
      ReadersSeeSameBytes(states, ops, i, j - 1, f);
      RunKept(states, ops, j - 1);
      StepKeepsBytes(states[j - 1], ops[j - 1], f);
    }
  }

  /** Once its name is gone, only appends through objects already open change a file that is still open. */
  lemma {:induction false} UnnamedFilesArePrivate(states: seq<State>, ops: seq<Op>, i: nat, j: nat, f: FileState)
    requires Run(states, ops) && i <= j < |states| && f !in states[i].names.Values
    requires forall k :: i <= k <= j ==> f in states[k].holders
    requires forall k :: i <= k < j ==> !(ops[k].Append? && ops[k].f == f)
    ensures f !in states[j].names.Values && f in states[i].bytes && f in states[j].bytes
    ensures states[j].bytes[f] == states[i].bytes[f]
    decreases j
  {
    hide Apply, Inv, Allowed, Run;
    HeldExists(states, ops, i, f);
    HeldExists(states, ops, j, f);
    if i < j {
      RunStep(states, ops, j);
      UnnamedFilesArePrivate(states, ops, i, j - 1, f);
      RunKept(states, ops, j - 1);
      StepKeepsUnnamed(states[j - 1], ops[j - 1], f);
      StepKeepsBytes(states[j - 1], ops[j - 1], f);
    }
  }

  /** Every file there ever was. */
  ghost function Known(s: State): set<FileState> {
    s.bytes.Keys + set f | f in s.freed
  }

  ghost function Created(s: State, op: Op): set<FileState> {
    if (op.OpenWriter? || op.OpenAppender?) && op.n !in s.names then {op.f} else {}
  }

  lemma CollectKnown(s: State, f: FileState)
    requires f in s.bytes
    ensures Known(Collect(s, f)) == Known(s) && s.freed <= Collect(s, f).freed
  {
    var t := Collect(s, f);
    if Refs(s, f) == 0 {
      assert f in t.freed;
      assert forall g :: g in t.freed <==> g in s.freed || g == f;
    }
  }

  lemma UnnameKnown(s: State, n: Name)
    requires Inv(s)
    ensures Known(Unname(s, n)) == Known(s) && s.freed <= Unname(s, n).freed
  {
    if n in s.names {
      NamedExists(s, n);
      CollectKnown(s.(names := s.names - {n}), s.names[n]);
    }
  }

  lemma CreateKnown(s: State, n: Name, f: FileState)
    ensures Known(Create(s, n, f)) == Known(s) + {f}
  {
  }

  lemma BytesKnown(s: State, f: FileState, bytes: Bytes)
    requires f in s.bytes
    ensures Known(s.(bytes := s.bytes[f := bytes])) == Known(s)
  {
    assert s.bytes[f := bytes].Keys == s.bytes.Keys;
  }

  lemma RenameKnown(s: State, src: Name, target: Name)
    requires Inv(s)
    ensures Known(Rename(s, src, target)) == Known(s) && s.freed <= Rename(s, src, target).freed
  {
    hide Inv, Unname;
    UnnameKnown(s, target);
  }

  lemma HolderExists(s: State, f: FileState)
    requires Inv(s) && f in s.holders
    ensures f in s.bytes
  {
  }

  /** No operation forgets a file, or a deletion. */
  lemma StepKnown(s: State, op: Op)
    requires Inv(s) && Allowed(s, op)
    ensures Known(Apply(s, op)) == Known(s) + Created(s, op) && s.freed <= Apply(s, op).freed
  {
    hide Inv, Collect, Unname, Rename;
    match op
    case OpenReader(n) =>
    case OpenWriter(n, f) =>
      if n in s.names {
        NamedExists(s, n);
        BytesKnown(s, s.names[n], []);
      } else {
        CreateKnown(s, n, f);
      }
    case OpenAppender(n, f) => CreateKnown(s, n, f);
    case Close(f) =>
      HolderExists(s, f);
      CollectKnown(s.(holders := s.holders - multiset{f}), f);
    case Append(f, data) =>
      if f in s.bytes {
        BytesKnown(s, f, s.bytes[f] + data);
      }
    case Remove(n) => UnnameKnown(s, n);
    case Renames(src, target) => RenameKnown(s, src, target);
  }

  lemma OneStepKnown(states: seq<State>, ops: seq<Op>, j: nat)
    requires Run(states, ops) && 0 < j < |states|
    ensures Known(states[j - 1]) <= Known(states[j]) && states[j - 1].freed <= states[j].freed
  {
    hide Apply, Inv, Allowed, Known, Run;
    RunKept(states, ops, j - 1);
    RunStep(states, ops, j);
    StepKnown(states[j - 1], ops[j - 1]);
  }

  lemma {:induction false} KnownForGood(states: seq<State>, ops: seq<Op>, i: nat, j: nat)
    requires Run(states, ops) && i <= j < |states|
    ensures Known(states[i]) <= Known(states[j]) && states[i].freed <= states[j].freed
    decreases j
  {
    if i < j {
      hide Known, Run;
      KnownForGood(states, ops, i, j - 1);
      OneStepKnown(states, ops, j);
    }
  }

  /** At every point of every run, every file created before is deleted, once and for good, exactly when it has no
      reference left: neither a name nor an open object. */
  lemma FilesLiveWhileReferenced(states: seq<State>, ops: seq<Op>, i: nat, j: nat, f: FileState)
    requires Run(states, ops) && i <= j < |states| && f in Known(states[i])
    ensures f in states[j].bytes <==> Refs(states[j], f) > 0
    ensures f in states[j].freed <==> Refs(states[j], f) == 0
    ensures states[i].freed <= states[j].freed
    ensures forall p, q :: 0 <= p < q < |states[j].freed| ==> states[j].freed[p] != states[j].freed[q]
  {
    RunKept(states, ops, j);
    KnownForGood(states, ops, i, j);
    assert f in Known(states[j]);
  }
}
