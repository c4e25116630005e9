/** The registry of open databases: `MadDatabase::openDatabase` and the sweep in `~Impl`. The registry holds weak
    references; a handle whose last owner is gone stays registered until it is swept or replaced. */
module Registry {
  import opened Shell

  type Handle = nat

  /** `entries` is `databaseSet`. `owned` are the handles that have an owner; a weak reference to any other handle is
      expired. `paths` gives the real path of every handle that was opened without an error for a path that
      resolved right after the opening. `files` says how paths resolve; a path that is not in it does not. */
  datatype State = State(entries: map<string, Handle>, owned: set<Handle>, paths: map<Handle, string>,
                         files: map<string, string>, next: Handle)

  /** What opening a file does: how paths resolve afterwards, and whether there was no error. */
  datatype Opening = Opening(files: map<string, string>, ok: bool)

  // ---------------------------------------------------------------- steps

  /** Files are never removed or moved. */
  ghost predicate Kept(files: map<string, string>, files': map<string, string>) {
    forall p :: p in files ==> p in files' && files'[p] == files[p]
  }

  /** A path that did not resolve before its opening is the path of a new file after it. */
  ghost predicate Possible(s: State, dbPath: string, o: Opening) {
    && Kept(s.files, o.files)
    && (dbPath in o.files && dbPath !in s.files ==> o.files[dbPath] !in s.files.Values)
  }

  /** The owned handle that is registered for a path. */
  function Found(s: State, dbPath: string): Option<Handle> {
    if dbPath in s.files && s.files[dbPath] in s.entries && s.entries[s.files[dbPath]] in s.owned
    then Some(s.entries[s.files[dbPath]]) else None
  }

  /** `openDatabase`; the handle returned is a null pointer when the last owner of the registered handle lets it go
      between `expired()` and `lock()`. */
  function Open(s: State, dbPath: string, o: Opening, dropInWindow: bool): (State, Option<Handle>) {
    match Found(s, dbPath)
    case Some(h) =>
      if dropInWindow then (s.(owned := s.owned - {h}), None) else (s, Some(h))
    case None =>
      var entries := if dbPath in s.files then s.entries - {s.files[dbPath]} else s.entries;
      var h := s.next;
      var t := s.(entries := entries, owned := s.owned + {h}, files := o.files, next := h + 1);
      if dbPath in o.files && o.ok then
        var path := o.files[dbPath];
        (t.(paths := t.paths[h := path],
            entries := if path in entries then entries else entries[path := h]), Some(h))
      else (t, Some(h))
  }

  /** The last owner of a handle lets it go; the destructor has not swept yet. */
  function Drop(s: State, h: Handle): State {
    s.(owned := s.owned - {h})
  }

  /** The destructor's sweep. */
  function Sweep(s: State): State {
    s.(entries := map p | p in s.entries && s.entries[p] in s.owned :: s.entries[p])
  }

  // ---------------------------------------------------------------- the registry itself

  class DatabaseRegistry {
    var databaseSet: map<string, Handle>
    var owned: set<Handle>
    ghost var paths: map<Handle, string>
    var files: map<string, string>
    var next: Handle

    ghost function Abstract(): State
      reads this
    {
      State(databaseSet, owned, paths, files, next)
    }

    constructor (files: map<string, string>)
      ensures Abstract() == State(map[], {}, map[], files, 0)
    {
      databaseSet, owned, paths, next := map[], {}, map[], 0;
      this.files := files;
    }

    method OpenDatabase(dbPath: string, o: Opening, dropInWindow: bool) returns (ptr: Option<Handle>)
      modifies this
      ensures (Abstract(), ptr) == Open(old(Abstract()), dbPath, o, dropInWindow)
    {
      if dbPath in files {
        var absPath := files[dbPath];
        if absPath in databaseSet {
          if databaseSet[absPath] !in owned {
            databaseSet := databaseSet - {absPath};
          } else {
            if dropInWindow {
              owned := owned - {databaseSet[absPath]};
              return None;
            }
            return Some(databaseSet[absPath]);
          }
        } else {
          assert databaseSet - {absPath} == databaseSet;
        }
      }
      var h := next;
      owned, next, files := owned + {h}, h + 1, o.files;
      if dbPath in files && o.ok {
        paths := paths[h := files[dbPath]];
        if files[dbPath] !in databaseSet {
          databaseSet := databaseSet[files[dbPath] := h];
        }
      }
      return Some(h);
    }

    /** The loop of the destructor, over the entries in any order. */
    method SweepExpired()
      modifies this`databaseSet
      ensures Abstract() == Sweep(old(Abstract()))
    {
      var todo := databaseSet.Keys;
      ghost var all := databaseSet;
      while todo != {}
        invariant todo <= all.Keys
        invariant databaseSet == map p | p in all && (p in todo || all[p] in owned) :: all[p]
        decreases |todo|
      {
        var p :| p in todo;
        if databaseSet[p] !in owned {
          databaseSet := databaseSet - {p};
        }
        todo := todo - {p};
      }
    }
  }

  // ---------------------------------------------------------------- safety over all runs

  /** `FilesEvent`: other programs create files. */
  datatype Event = OpenEvent(dbPath: string, o: Opening, dropInWindow: bool) | DropEvent(h: Handle) | SweepEvent
                 | FilesEvent(files: map<string, string>)

  ghost predicate Enabled(s: State, e: Event) {
    && (e.OpenEvent? ==> Possible(s, e.dbPath, e.o))
    && (e.FilesEvent? ==> Kept(s.files, e.files))
  }

  function Step(s: State, e: Event): State {
    match e
    case OpenEvent(dbPath, o, dropInWindow) => Open(s, dbPath, o, dropInWindow).0
    case DropEvent(h) => Drop(s, h)
    case SweepEvent => Sweep(s)
    case FilesEvent(files) => s.(files := files)
  }

  function Run(s: State, es: seq<Event>): State
    decreases |es|
  {
    if es == [] then s else Run(Step(s, es[0]), es[1..])
  }

  ghost predicate EnabledRun(s: State, es: seq<Event>)
    decreases |es|
  {
    es == [] || (Enabled(s, es[0]) && EnabledRun(Step(s, es[0]), es[1..]))
  }

  /** Entries point to handles that were opened for their path, and every owned, successfully opened handle is
      registered for its path. */
  ghost predicate Inv(s: State) {
    && (forall p :: p in s.entries ==> s.entries[p] in s.paths && s.paths[s.entries[p]] == p)
    && (forall h :: h in s.owned && h in s.paths ==> s.paths[h] in s.entries && s.entries[s.paths[h]] == h)
    && (forall h :: h in s.owned || h in s.paths ==> h < s.next)
    && (forall h :: h in s.paths ==> s.paths[h] in s.files.Values)
  }

  /** A real path stays a real path. */
  lemma KeptPaths(files: map<string, string>, files': map<string, string>)
    requires Kept(files, files')
    ensures forall path :: path in files.Values ==> path in files'.Values
  {
    forall path | path in files.Values
      ensures path in files'.Values
    {
      var p :| p in files && files[p] == path;
      assert files'[p] == path;
    }
  }

  lemma OpenKeepsInv(s: State, dbPath: string, o: Opening, dropInWindow: bool)
    requires Inv(s) && Possible(s, dbPath, o)
    ensures Inv(Open(s, dbPath, o, dropInWindow).0)
  {
    var t := Open(s, dbPath, o, dropInWindow).0;
    if Found(s, dbPath).None? {
      KeptPaths(s.files, o.files);
      hide Kept;
    }
  }

  lemma {:induction false} RunKeepsInv(s: State, es: seq<Event>)
    requires Inv(s) && EnabledRun(s, es)
    ensures Inv(Run(s, es))
    decreases |es|
  {
    if es != [] {
      StepKeepsInv(s, es[0]);
      RunKeepsInv(Step(s, es[0]), es[1..]);
    }
  }

  lemma StepKeepsInv(s: State, e: Event)
    requires Inv(s) && Enabled(s, e)
    ensures Inv(Step(s, e))
  {
    match e
    case OpenEvent(dbPath, o, dropInWindow) => OpenKeepsInv(s, dbPath, o, dropInWindow);
    case DropEvent(h) =>
    case SweepEvent =>
    case FilesEvent(files) => KeptPaths(s.files, files);
  }

  /** In every run from an empty registry, a real path has at most one owned handle that was opened without an error
      for a path that then resolved to it, and that handle is the registered one. */
  lemma OneHandlePerPath(files: map<string, string>, es: seq<Event>, h: Handle, h': Handle)
    requires EnabledRun(State(map[], {}, map[], files, 0), es)
    ensures var s := Run(State(map[], {}, map[], files, 0), es);
            h in s.owned && h in s.paths ==>
              && s.paths[h] in s.entries && s.entries[s.paths[h]] == h
              && (h' in s.owned && h' in s.paths && s.paths[h'] == s.paths[h] ==> h' == h)
  {
    RunKeepsInv(State(map[], {}, map[], files, 0), es);
  }

  /** A path that does not resolve right after its opening, as that of a database in memory, is not registered; when it
      comes to resolve later, another opening gives a second handle. */
  lemma LateFile(dbPath: string, path: string)
    ensures var none := Opening(map[], true);
            var first := Open(State(map[], {}, map[], map[], 0), dbPath, none, false);
            var later := Step(first.0, FilesEvent(map[dbPath := path]));
            var second := Open(later, dbPath, Opening(later.files, true), false);
            && Possible(State(map[], {}, map[], map[], 0), dbPath, none)
            && Possible(later, dbPath, Opening(later.files, true))
            && first.1 == Some(0) && second.1 == Some(1) && second.0.owned == {0, 1}
  {
  }

  /** A sweep erases exactly the expired entries. */
  lemma SweepErasesExpired(s: State, p: string)
    ensures p in Sweep(s).entries <==> p in s.entries && s.entries[p] in s.owned
    ensures p in Sweep(s).entries ==> Sweep(s).entries[p] == s.entries[p]
  {
  }

  /** The events that take the last owner from a handle. */
  predicate Releases(s: State, e: Event, h: Handle) {
    e == DropEvent(h) || (e.OpenEvent? && e.dropInWindow && Found(s, e.dbPath) == Some(h))
  }

  predicate KeepsOwner(s: State, es: seq<Event>, h: Handle)
    decreases |es|
  {
    es == [] || (!Releases(s, es[0], h) && KeepsOwner(Step(s, es[0]), es[1..], h))
  }

  lemma {:induction false} OwnedStays(s: State, es: seq<Event>, h: Handle)
    requires Inv(s) && EnabledRun(s, es) && KeepsOwner(s, es, h)
    requires h in s.owned && h in s.paths
    ensures var t := Run(s, es);
            Inv(t) && h in t.owned && h in t.paths && t.paths[h] == s.paths[h]
    decreases |es|
  {
    if es != [] {
      StepKeepsInv(s, es[0]);
      OwnedStays(Step(s, es[0]), es[1..], h);
    }
  }

  /** While a handle is owned, opening any path that resolves to its file returns that handle - after any run. It
      returns a null pointer if and only if the last owner lets go in the window between `expired()` and `lock()`. */
  lemma SameFileSameHandle(s: State, es: seq<Event>, h: Handle, dbPath: string, o: Opening, dropInWindow: bool)
    requires Inv(s) && EnabledRun(s, es) && KeepsOwner(s, es, h)
    requires h in s.owned && h in s.paths
    requires var t := Run(s, es); dbPath in t.files && t.files[dbPath] == s.paths[h]
    ensures Open(Run(s, es), dbPath, o, dropInWindow).1 == if dropInWindow then None else Some(h)
  {
    OwnedStays(s, es, h);
  }

  /** A handle that openDatabase returns has an owner; one it opened without an error for a path that resolves is
      registered, and these are the handles with a real path. */
  lemma ReturnedIsOwned(s: State, dbPath: string, o: Opening, dropInWindow: bool)
    requires Inv(s) && Possible(s, dbPath, o)
    ensures var (t, ptr) := Open(s, dbPath, o, dropInWindow);
            && (ptr.None? <==> Found(s, dbPath).Some? && dropInWindow)
            && (ptr.Some? ==> ptr.value in t.owned)
            && (ptr.Some? && dbPath in t.files && (Found(s, dbPath).Some? || o.ok) ==>
                  t.files[dbPath] in t.entries && t.entries[t.files[dbPath]] == ptr.value)
            && (Found(s, dbPath).None? ==> (ptr.value in t.paths <==> o.ok && dbPath in t.files))
  {
    OpenKeepsInv(s, dbPath, o, dropInWindow);
  }
}
