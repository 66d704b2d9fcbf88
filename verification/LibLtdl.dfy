/**
 Opening and closing modules with their dependencies.
 */
module LibLtdl {
  import opened ModuleTable

  datatype Option<T> = None | Some(value: T)

  /** What a module name resolves to: the files to try in order, and the names it
      depends on. */
  datatype Library = Library(files: seq<string>, deps: seq<nat>)

  /** The names there are, and the files some loader can open. */
  datatype World = World(names: seq<Library>, loadable: set<string>)

  /** Dependencies do not run in circles: loading would not end. */
  predicate Acyclic(world: World) {
    forall m, k :: 0 <= m < |world.names| && 0 <= k < |world.names[m].deps| ==> world.names[m].deps[k] < m
  }

  predicate Offers(files: seq<string>, file: string) {
    exists k :: 0 <= k < |files| && files[k] == file
  }

  /** Some loader can open one of the files of a name. */
  predicate Loadable(world: World, name: nat) {
    exists k :: 0 <= k < |Files(world, name)| && Files(world, name)[k] in world.loadable
  }

  /** The search takes this file: a loader can open it, and none before it can be opened
      or was open. */
  ghost predicate FirstFile(world: World, name: nat, rec: Records, file: string) {
    exists k :: 0 <= k < |Files(world, name)| && Files(world, name)[k] == file
      && file in world.loadable && NoneBefore(world.loadable, Files(world, name), rec, k)
  }

  ghost predicate NoneBefore(loadable: set<string>, files: seq<string>, rec: Records, k: nat) {
    k <= |files| && forall j :: 0 <= j < k ==> files[j] !in loadable && !IsOpen(rec, files[j])
  }

  ghost predicate IsOpen(rec: Records, file: string) {
    exists h :: h in rec && rec[h].file == file
  }

  /** h is an open module a name with these files stands for. */
  predicate Serves(rec: Records, files: seq<string>, h: nat) {
    h in rec && Offers(files, rec[h].file)
  }

  function Files(world: World, name: nat): seq<string> {
    if name < |world.names| then world.names[name].files else []
  }

  /** What opening a name comes to. */
  ghost predicate Opened(world: World, rec: Records, name: nat, r: Option<nat>) {
    match r
    case None => !Loadable(world, name)
    case Some(h) => Serves(rec, Files(world, name), h)
  }

  /** The handles of the names from the last to the first, without those no loader
      can open. */
  ghost predicate Loads(world: World, rec: Records, names: seq<nat>, deps: seq<nat>) {
    if names == [] then deps == []
    else
      (deps != [] && Opened(world, rec, names[0], Some(deps[|deps| - 1]))
       && Loads(world, rec, names[1..], deps[..|deps| - 1]))
      || (Opened(world, rec, names[0], None) && Loads(world, rec, names[1..], deps))
  }

  /** The module h was loaded for the name m: it has one of its files and holds a slot for
      each of its dependencies, but for those no loader can open. */
  ghost predicate BackedBy(world: World, rec: Records, h: nat, m: nat) {
    && m < |world.names| && h in rec && Offers(world.names[m].files, rec[h].file) && rec[h].file in world.loadable
    && Loads(world, rec, world.names[m].deps, rec[h].deps)
  }

  ghost predicate IsBacked(world: World, rec: Records, h: nat) {
    exists m :: BackedBy(world, rec, h, m)
  }

  ghost predicate Backed(world: World, rec: Records) {
    forall h {:trigger IsBacked(world, rec, h)} :: h in rec ==> IsBacked(world, rec, h)
  }

  function Kept(deps: seq<nat>, r: Option<nat>): seq<nat> {
    if r.Some? then deps + [r.value] else deps
  }

  /** A client opens a module by name, or closes one of its outstanding opens. */
  datatype ClientStep = Open(m: nat) | Close(i: nat)

  datatype Search = AlreadyOpen(h: nat) | Loaded(file: string) | NotFound

  class Ltdl {
    const world: World
    var handles: seq<nat>
    var rec: Records
    var next: nat

    ghost function T(): Table
      reads this
    {
      Table(handles, rec, next)
    }

    /** Counts are conserved, no file is open twice and every open module is loaded. */
    ghost predicate Sound(clients: multiset<nat>)
      reads this
    {
      match T()
      case Table(_, r, _) => Inv(T(), clients) && UniqueFiles(r) && Acyclic(world) && Backed(world, r)
    }

    constructor (world: World)
      requires Acyclic(world)
      ensures Sound(multiset{}) && this.world == world && handles == []
    {
      this.world := world;
      handles, rec, next := [], map[], 0;
    }

    /** Where a handle is in the list, or the length of the list. */
    method FindHandle(h: nat) returns (i: nat)
      ensures i <= |handles| && (i < |handles| ==> handles[i] == h)
      ensures i == |handles| <==> h !in handles
    {
      i := 0;
      while i < |handles| && handles[i] != h
        invariant 0 <= i <= |handles| && h !in handles[..i]
      {
        i := i + 1;
      }
      assert i == |handles| ==> handles[..i] == handles;
    }

    method Bump(h: nat, step: int)
      requires h in rec
      modifies this
      ensures T() == Recount(old(T()), h, step)
    {
      rec := rec[h := rec[h].(refCount := rec[h].refCount + step)];
    }

    /** lt_dlclose.  `clients` are the opens outstanding before the call. */
    method LtDlclose(h: nat, ghost clients: multiset<nat>) returns (errors: nat)
      requires Sound(clients) && (h in rec ==> h in clients)
      modifies this
      ensures h !in old(rec) ==> errors == 1 && T() == old(T())
      ensures h in old(rec) ==> errors == 0 && Sound(clients - multiset{h}) && Shrunk(old(T()), T())
      decreases |handles|, 0
    {
      ghost var t := T();
      var i := FindHandle(h);
      if i == |handles| {
        return 1;
      }
      assert h in handles;
      Bump(h, -1);
      if rec[h].refCount <= 0 {
        errors := Unload(i, t, clients);
      } else {
        CloseMore(t, clients, h);
        FilesStay(t, T());
        BackedStays(world, t, T(), clients - multiset{h});
        errors := 0;
      }
    }

    /** The rest of lt_dlclose for a module without references: cut it out of the
        list and release its dependencies. */
    method Unload(i: nat, ghost t: Table, ghost clients: multiset<nat>) returns (errors: nat)
      requires Inv(t, clients) && UniqueFiles(t.rec) && Acyclic(world) && Backed(world, t.rec)
      requires i < |t.handles| && t.handles[i] in clients && t.rec[t.handles[i]].refCount == 1
      requires T() == Recount(t, t.handles[i], -1)
      modifies this
      ensures errors == 0 && Sound(clients - multiset{t.handles[i]}) && Shrunk(t, T())
      decreases |t.handles| - 1, |t.rec[t.handles[i]].deps| + 2
    {
      var h := handles[i];
      var deps := rec[h].deps;
      CutIsUnlinked(t, i);
      CloseLast(t, clients, h);
      handles := handles[..i] + handles[i + 1..];
      rec := rec - {h};
      ghost var u := T();
      FilesStay(t, u);
      BackedStays(world, t, u, clients - multiset{h} + multiset(deps));
      errors := UnloadDeplibs(deps, clients - multiset{h});
      ShrunkTrans(t, u, T());
    }

    /** unload_deplibs: close each dependency once. */
    method UnloadDeplibs(deps: seq<nat>, ghost clients: multiset<nat>) returns (errors: nat)
      requires Sound(clients + multiset(deps))
      modifies this
      ensures errors == 0 && Sound(clients) && Shrunk(old(T()), T())
      decreases |handles|, |deps| + 1
    {
      ghost var t := T();
      errors := 0;
      ShrunkRefl(t);
      assert deps[0..] == deps;
      for i := 0 to |deps|
        invariant errors == 0 && Sound(clients + multiset(deps[i..])) && Shrunk(t, T())
      {
        ghost var u := T();
        OpensTail(clients, deps, i);
        KeepBounds(t.handles, rec.Keys);
        var e := LtDlclose(deps[i], clients + multiset(deps[i..]));
        errors := errors + e;
        ShrunkTrans(t, u, T());
      }
      assert clients + multiset(deps[|deps|..]) == clients;
    }

    /** find_module / tryall_dlopen: the first file that is open already or that some
        loader can open, at position k of the search. */
    method FindModule(files: seq<string>) returns (r: Search, k: nat)
      requires forall h :: h in handles <==> h in rec
      ensures NoneBefore(world.loadable, files, rec, k)
      ensures r.NotFound? <==> k == |files|
      ensures r.AlreadyOpen? ==> r.h in rec && rec[r.h].file == files[k]
      ensures r.Loaded? ==> r.file == files[k] && files[k] in world.loadable && !IsOpen(rec, r.file)
    {
      k := 0;
      while k < |files|
        invariant NoneBefore(world.loadable, files, rec, k)
      {
        var i := 0;
        while i < |handles| && rec[handles[i]].file != files[k]
          invariant 0 <= i <= |handles|
          invariant forall j :: 0 <= j < i ==> rec[handles[j]].file != files[k]
        {
          i := i + 1;
        }
        if i < |handles| {
          return AlreadyOpen(handles[i]), k;
        }
        assert forall h :: h in rec ==> h in handles;
        if files[k] in world.loadable {
          return Loaded(files[k]), k;
        }
        k := k + 1;
      }
      r := NotFound;
    }

    /** load_deplibs: open the dependencies in reverse order and keep those that opened. */
    method LoadDeplibs(m: nat, ghost clients: multiset<nat>) returns (deps: seq<nat>)
      requires Sound(clients) && m < |world.names|
      modifies this
      ensures Sound(clients + multiset(deps)) && Grown(old(T()), T())
      ensures Loads(world, rec, world.names[m].deps, deps)
      decreases m, 0
    {
      ghost var t := T();
      deps := [];
      var names := world.names[m].deps;
      var i := |names|;
      LoadingStart(clients, names);
      assert forall k :: 0 <= k < |names| ==> names[k] < m;
      while i > 0
        invariant 0 <= i <= |names| && Loading(t, clients, names, i, deps)
        decreases i
      {
        i := i - 1;
        deps := LoadNext(names, i, deps, t, clients);
      }
      LoadingDone(t, clients, names, deps);
    }

    /** The names from i on are loaded, and nothing that was open in t has changed. */
    ghost predicate Loading(t: Table, clients: multiset<nat>, names: seq<nat>, i: nat, deps: seq<nat>)
      reads this
    {
      match T()
      case Table(_, r, _) =>
        Sound(clients + multiset(deps)) && Grown(t, T()) && i <= |names| && Loads(world, r, names[i..], deps)
    }

    lemma LoadingStart(clients: multiset<nat>, names: seq<nat>)
      requires Sound(clients)
      ensures Loading(T(), clients, names, |names|, [])
      ensures Acyclic(world)
    {
      LoadsNone(world, rec, names, clients);
    }

    lemma LoadingDone(t: Table, clients: multiset<nat>, names: seq<nat>, deps: seq<nat>)
      requires Loading(t, clients, names, 0, deps)
      ensures Sound(clients + multiset(deps)) && Grown(t, T()) && Loads(world, rec, names, deps)
    {
      assert names[0..] == names;
    }

    /** One turn: the i-th name, behind those loaded already. */
    method LoadNext(names: seq<nat>, i: nat, deps: seq<nat>, ghost t: Table, ghost clients: multiset<nat>)
      returns (after: seq<nat>)
      requires i < |names| && names[i] < |world.names| && Loading(t, clients, names, i + 1, deps)
      modifies this
      ensures Loading(t, clients, names, i, after)
      decreases names[i], 3
    {
      ghost var u := T();
      var r := LoadOne(names[i], deps, t, clients);
      LoadsNext(world, u, T(), names[i..], deps, r);
      after := Kept(deps, r);
    }

    /** One dependency: a failure to open it is ignored. */
    method LoadOne(name: nat, ghost deps: seq<nat>, ghost t: Table, ghost clients: multiset<nat>)
      returns (r: Option<nat>)
      requires Sound(clients + multiset(deps)) && name < |world.names| && Grown(t, T())
      modifies this
      ensures Sound(clients + multiset(Kept(deps, r))) && Grown(t, T()) && Grown(old(T()), T())
      ensures Opened(world, rec, name, r)
      decreases name, 2
    {
      ghost var u := T();
      r := TryDlopen(name, clients + multiset(deps));
      KeptClients(clients, deps, r);
      GrownTrans(t, u, T());
    }

    /** try_dlopen.  Success adds one open of the module returned; failure changes
        nothing; opening an open module takes no reference on its dependencies. */
    method TryDlopen(m: nat, ghost clients: multiset<nat>) returns (r: Option<nat>)
      requires Sound(clients) && m < |world.names|
      modifies this
      ensures Grown(old(T()), T())
      ensures r.None? ==> Sound(clients) && handles == old(handles) && rec == old(rec)
      ensures r.Some? ==> Sound(clients + multiset{r.value}) && r.value in rec
      ensures r.Some? && r.value in old(rec) ==>
                handles == old(handles) && rec == Recount(old(T()), r.value, 1).rec
      ensures Opened(world, rec, m, r)
      ensures r.Some? ==> r.value in rec && FirstFile(world, m, old(rec), rec[r.value].file)
      decreases m, 1
    {
      ghost var t := T();
      var deps := LoadDeplibs(m, clients);
      ghost var u := T();
      var found, k := FindModule(world.names[m].files);
      match found {
        case AlreadyOpen(c) =>
          OpenLoadable(world, u, c);
          TakenFirst(world, m, t, u, k, u.rec[c].file);
          Reopen(c, deps, t, clients);
          r := Some(c);
        case Loaded(file) =>
          TakenFirst(world, m, t, u, k, file);
          var h := Register(file, m, deps, clients);
          GrownTrans(t, u, T());
          r := Some(h);
        case NotFound =>
          var e := UnloadDeplibs(deps, clients);
          Restored(t, u, T(), clients);
          r := None;
      }
    }

    /** The module was open: count the open, and give the dependencies back. */
    method Reopen(c: nat, deps: seq<nat>, ghost t: Table, ghost clients: multiset<nat>)
      requires Inv(t, clients) && Grown(t, T()) && Sound(clients + multiset(deps)) && c in rec
      modifies this
      ensures Sound(clients + multiset{c}) && c in rec && Grown(t, T())
      ensures c in t.rec ==> handles == t.handles && rec == Recount(t, c, 1).rec
      ensures rec[c].file == old(rec)[c].file
    {
      ghost var u := T();
      ghost var v := Recount(u, c, 1);
      OpenMore(t, u, clients, multiset(deps), c);
      FilesStay(u, v);
      BackedStays(world, u, v, clients + multiset{c} + multiset(deps));
      Bump(c, 1);
      var e := UnloadDeplibs(deps, clients + multiset{c});
      ReopenedTable(t, u, T(), clients, c);
    }

    /** register_handle for a newly loaded module. */
    method Register(file: string, ghost m: nat, deps: seq<nat>, ghost clients: multiset<nat>) returns (h: nat)
      requires m < |world.names| && Offers(world.names[m].files, file) && file in world.loadable
      requires Loads(world, rec, world.names[m].deps, deps)
      requires Sound(clients + multiset(deps)) && forall g :: g in rec ==> rec[g].file != file
      modifies this
      ensures h == old(next) && T() == Insert(old(T()), Module(file, 1, deps))
      ensures Sound(clients + multiset{h}) && h in rec && h !in old(rec) && Grown(old(T()), T())
    {
      InsertKeeps(T(), clients, Module(file, 1, deps));
      BackedInsert(world, T(), m, Module(file, 1, deps));
      h := next;
      handles, rec, next := [h] + handles, rec[h := Module(file, 1, deps)], next + 1;
    }

    /** Closing every outstanding open empties the table. */
    method CloseAll(opens: seq<nat>)
      requires Sound(multiset(opens))
      modifies this
      ensures handles == [] && rec == map[]
    {
      assert multiset{} + multiset(opens) == multiset(opens);
      var e := UnloadDeplibs(opens, multiset{});
      AllClosed(T());
    }

    /** Any run of opens and closes by a client keeps the table sound for the opens
        that are outstanding after it, and every module with a loadable file opens. */
    method RunClient(steps: seq<ClientStep>) returns (opens: seq<nat>, replies: seq<Option<nat>>)
      requires Sound(multiset{}) && forall k :: 0 <= k < |steps| && steps[k].Open? ==> steps[k].m < |world.names|
      modifies this
      ensures Sound(multiset(opens))
      ensures Answers(world, steps, replies, opens)
      ensures forall h :: h in rec ==> rec[h].refCount == multiset(opens)[h] + Slots(handles, rec)[h] >= 1
      ensures forall g, h :: g in rec && h in rec && rec[g].file == rec[h].file ==> g == h
      ensures forall h :: h in rec ==> rec[h].file in world.loadable
    {
      opens, replies := [], [];
      assert multiset(opens) == multiset{};
      for k := 0 to |steps|
        invariant Sound(multiset(opens))
        invariant Answers(world, steps[..k], replies, opens)
      {
        var was, r := opens, None;
        opens, r := TakeStep(steps[k], was);
        AnswersNext(world, steps, k, replies, was, r);
        replies := replies + [r];
      }
      assert steps[..|steps|] == steps;
      SoundMeans(multiset(opens));
    }

    lemma SoundMeans(clients: multiset<nat>)
      requires Sound(clients)
      ensures forall h :: h in rec ==> rec[h].refCount == clients[h] + Slots(handles, rec)[h] >= 1
      ensures forall g, h :: g in rec && h in rec && rec[g].file == rec[h].file ==> g == h
      ensures forall h :: h in rec ==> rec[h].file in world.loadable
    {
      forall h | h in rec
        ensures rec[h].file in world.loadable
      {
        OpenLoadable(world, T(), h);
      }
    }

    method TakeStep(step: ClientStep, opens: seq<nat>) returns (after: seq<nat>, r: Option<nat>)
      requires Sound(multiset(opens)) && (step.Open? ==> step.m < |world.names|)
      modifies this
      ensures Sound(multiset(after)) && after == AfterStep(opens, step, r)
      ensures step.Open? && Loadable(world, step.m) ==> r.Some?
    {
      match step {
        case Open(m) =>
          r := TryDlopen(m, multiset(opens));
          KeptClients(multiset{}, opens, r);
          assert multiset{} + multiset(opens) == multiset(opens);
        case Close(i) =>
          r := None;
          if i < |opens| {
            WithoutOne(opens, i);
            var e := LtDlclose(opens[i], multiset(opens));
          }
      }
      after := AfterStep(opens, step, r);
    }
  }

  /** The opens outstanding after a step that opened r. */
  function AfterStep(opens: seq<nat>, step: ClientStep, r: Option<nat>): seq<nat> {
    match step
    case Open(_) => Kept(opens, r)
    case Close(i) => if i < |opens| then opens[..i] + opens[i + 1..] else opens
  }

  function Outstanding(steps: seq<ClientStep>, replies: seq<Option<nat>>): seq<nat>
    requires |steps| == |replies|
  {
    if steps == [] then []
    else
      var n := |steps| - 1;
      AfterStep(Outstanding(steps[..n], replies[..n]), steps[n], replies[n])
  }

  /** What a client has open after its steps; a module with a loadable file opened. */
  ghost predicate Answers(world: World, steps: seq<ClientStep>, replies: seq<Option<nat>>, opens: seq<nat>) {
    && |replies| == |steps| && opens == Outstanding(steps, replies)
    && forall k :: 0 <= k < |steps| && steps[k].Open? && Loadable(world, steps[k].m) ==> replies[k].Some?
  }

  lemma AnswersNext(world: World, steps: seq<ClientStep>, k: nat, replies: seq<Option<nat>>, opens: seq<nat>,
                    r: Option<nat>)
    requires k < |steps| && Answers(world, steps[..k], replies, opens)
    requires steps[k].Open? && Loadable(world, steps[k].m) ==> r.Some?
    ensures Answers(world, steps[..k + 1], replies + [r], AfterStep(opens, steps[k], r))
  {
    assert steps[..k + 1][..k] == steps[..k] && (replies + [r])[..k] == replies;
  }

  lemma WithoutOne(opens: seq<nat>, i: nat)
    requires i < |opens|
    ensures opens[i] in multiset(opens)
    ensures multiset(opens) - multiset{opens[i]} == multiset(opens[..i] + opens[i + 1..])
  {
    assert opens == opens[..i] + [opens[i]] + opens[i + 1..];
  }

  lemma OpensTail(clients: multiset<nat>, deps: seq<nat>, i: nat)
    requires i < |deps|
    ensures deps[i] in clients + multiset(deps[i..])
    ensures clients + multiset(deps[i..]) - multiset{deps[i]} == clients + multiset(deps[i + 1..])
  {
    assert deps[i..] == [deps[i]] + deps[i + 1..];
  }

  /** Reopening c on top of t, once the dependencies loaded again are released. */
  lemma ReopenedTable(t: Table, u: Table, w: Table, clients: multiset<nat>, c: nat)
    requires c in u.rec && Grown(t, Recount(u, c, 1)) && Shrunk(Recount(u, c, 1), w)
    requires Inv(t, clients) && Inv(w, clients + multiset{c})
    ensures Grown(t, w) && c in w.rec && w.rec[c].file == u.rec[c].file
    ensures c in t.rec ==> w.handles == t.handles && w.rec == Recount(t, c, 1).rec
  {
    ReopenedGrown(t, Recount(u, c, 1), w, clients, c);
    if c in t.rec {
      ReopenedSame(t, Recount(u, c, 1), w, clients, c);
    }
  }

  /** t survives ... */
  lemma ReopenedGrown(t: Table, v: Table, w: Table, clients: multiset<nat>, c: nat)
    requires Inv(t, clients) && Inv(w, clients + multiset{c}) && Grown(t, v) && Shrunk(v, w)
    ensures Grown(t, w) && c in w.rec
  {
    Between(t, v, w);
    Survive(t, w, clients, clients + multiset{c});
    GrownShrunk(t, v, w);
    assert c in clients + multiset{c};
  }

  /** ... and if c was listed in t, nothing but its count has changed. */
  lemma ReopenedSame(t: Table, v: Table, w: Table, clients: multiset<nat>, c: nat)
    requires Inv(t, clients) && Inv(w, clients + multiset{c}) && Grown(t, v) && Shrunk(v, w) && c in t.rec
    ensures w.handles == t.handles && w.rec == Recount(t, c, 1).rec
  {
    var b := Recount(t, c, 1);
    ReopenKeeps(t, clients, c);
    RecountGrown(t, v, c);
    Restored(b, v, w, clients + multiset{c});
  }

  lemma RecountGrown(t: Table, v: Table, c: nat)
    requires Grown(t, v) && c in t.rec
    ensures Grown(Recount(t, c, 1), v)
  {
  }

  lemma KeptClients(clients: multiset<nat>, deps: seq<nat>, r: Option<nat>)
    ensures r.Some? ==> clients + multiset(deps) + multiset{r.value} == clients + multiset(Kept(deps, r))
  {
  }

  /** Loading is judged by the files of the handles in the slots alone. */
  lemma {:induction false} LoadsStay(world: World, r: Records, s: Records, names: seq<nat>, deps: seq<nat>)
    requires forall d :: d in deps && d in r ==> d in s && s[d].file == r[d].file
    requires Loads(world, r, names, deps)
    ensures Loads(world, s, names, deps)
    decreases |names|
  {
    if names != [] {
      if Opened(world, r, names[0], None) && Loads(world, r, names[1..], deps) {
        LoadsStay(world, r, s, names[1..], deps);
      } else {
        LoadsStay(world, r, s, names[1..], deps[..|deps| - 1]);
      }
    }
  }

  lemma NotOpenBefore(loadable: set<string>, files: seq<string>, t: Table, u: Table, k: nat)
    requires Grown(t, u) && NoneBefore(loadable, files, u.rec, k)
    ensures NoneBefore(loadable, files, t.rec, k)
  {
  }

  lemma TakenFirst(world: World, m: nat, t: Table, u: Table, k: nat, file: string)
    requires Grown(t, u) && m < |world.names| && k < |world.names[m].files| && world.names[m].files[k] == file
    requires file in world.loadable && NoneBefore(world.loadable, world.names[m].files, u.rec, k)
    ensures FirstFile(world, m, t.rec, file) && Offers(world.names[m].files, file)
  {
    NotOpenBefore(world.loadable, world.names[m].files, t, u, k);
    assert Files(world, m)[k] == file;
  }

  lemma OpenLoadable(world: World, t: Table, h: nat)
    requires Backed(world, t.rec) && h in t.rec
    ensures t.rec[h].file in world.loadable
  {
    assert IsBacked(world, t.rec, h);
  }

  lemma LoadsNone(world: World, rec: Records, names: seq<nat>, clients: multiset<nat>)
    ensures Loads(world, rec, names[|names|..], []) && clients + multiset([]) == clients
  {
  }

  /** Files of listed modules do not change, so what loaded stays loaded. */
  lemma LoadsGrown(world: World, t: Table, u: Table, names: seq<nat>, deps: seq<nat>)
    requires Grown(t, u) && Loads(world, t.rec, names, deps)
    ensures Loads(world, u.rec, names, deps)
  {
    LoadsStay(world, t.rec, u.rec, names, deps);
  }

  /** A module loaded in t is still loaded in u, where it and its dependencies are. */
  lemma LoadedStays(world: World, t: Table, u: Table, clients: multiset<nat>, h: nat, m: nat)
    requires Inv(u, clients) && h in u.rec && BackedBy(world, t.rec, h, m) && SameModule(t.rec[h], u.rec[h])
    requires forall g :: g in t.rec && g in u.rec ==> SameModule(t.rec[g], u.rec[g])
    ensures BackedBy(world, u.rec, h, m)
  {
    forall d | d in t.rec[h].deps && d in t.rec
      ensures d in u.rec && u.rec[d].file == t.rec[d].file
    {
      DepsListed(u, clients, h, d);
    }
    LoadsStay(world, t.rec, u.rec, world.names[m].deps, t.rec[h].deps);
  }

  /** Counting and unlinking keep every module that stays listed loaded. */
  lemma BackedStays(world: World, t: Table, u: Table, clients: multiset<nat>)
    requires Inv(u, clients) && Backed(world, t.rec)
    requires forall g :: g in u.rec ==> g in t.rec && SameModule(t.rec[g], u.rec[g])
    ensures Backed(world, u.rec)
  {
    forall h | h in u.rec
      ensures IsBacked(world, u.rec, h)
    {
      assert IsBacked(world, t.rec, h);
      var m: nat :| BackedBy(world, t.rec, h, m);
      LoadedStays(world, t, u, clients, h, m);
    }
  }

  /** So does registering a module with the slots loaded for it. */
  lemma BackedInsert(world: World, t: Table, m: nat, lib: Module)
    requires Backed(world, t.rec) && t.next !in t.rec
    requires m < |world.names| && Offers(world.names[m].files, lib.file) && lib.file in world.loadable
    requires Loads(world, t.rec, world.names[m].deps, lib.deps)
    ensures Backed(world, Insert(t, lib).rec)
  {
    var u := Insert(t, lib);
    forall h | h in u.rec
      ensures IsBacked(world, u.rec, h)
    {
      if h == t.next {
        LoadsStay(world, t.rec, u.rec, world.names[m].deps, lib.deps);
        assert BackedBy(world, u.rec, h, m);
      } else {
        assert IsBacked(world, t.rec, h);
        var n: nat :| BackedBy(world, t.rec, h, n);
        LoadsStay(world, t.rec, u.rec, world.names[n].deps, t.rec[h].deps);
        assert BackedBy(world, u.rec, h, n);
      }
    }
  }

  /** Every dependency that can be opened has a slot. */
  lemma {:induction false} LoadsServes(world: World, rec: Records, names: seq<nat>, deps: seq<nat>, n: nat)
    returns (d: nat)
    requires Loads(world, rec, names, deps) && n in names && Loadable(world, n)
    ensures d in deps && Serves(rec, Files(world, n), d)
    decreases |names|
  {
    if Opened(world, rec, names[0], None) && Loads(world, rec, names[1..], deps) {
      d := LoadsServes(world, rec, names[1..], deps, n);
    } else {
      d := deps[|deps| - 1];
      if n != names[0] {
        d := LoadsServes(world, rec, names[1..], deps[..|deps| - 1], n);
      }
    }
  }

  /** While a module is open, so is every dependency of it that can be opened. */
  lemma DependenciesOpen(world: World, t: Table, h: nat) returns (m: nat)
    requires Backed(world, t.rec) && h in t.rec
    ensures m < |world.names| && Offers(world.names[m].files, t.rec[h].file) && t.rec[h].file in world.loadable
    ensures forall n :: n in world.names[m].deps && Loadable(world, n) ==>
              exists d :: d in t.rec[h].deps && Serves(t.rec, Files(world, n), d)
  {
    assert IsBacked(world, t.rec, h);
    m :| BackedBy(world, t.rec, h, m);
    forall n | n in world.names[m].deps && Loadable(world, n)
      ensures exists d :: d in t.rec[h].deps && Serves(t.rec, Files(world, n), d)
    {
      var d := LoadsServes(world, t.rec, world.names[m].deps, t.rec[h].deps, n);
    }
  }

  lemma LoadsNext(world: World, t: Table, u: Table, names: seq<nat>, deps: seq<nat>, r: Option<nat>)
    requires names != [] && Grown(t, u) && Loads(world, t.rec, names[1..], deps) && Opened(world, u.rec, names[0], r)
    ensures Loads(world, u.rec, names, Kept(deps, r))
  {
    LoadsGrown(world, t, u, names[1..], deps);
    var after := Kept(deps, r);
    if r.Some? {
      assert after[..|after| - 1] == deps;
    }
  }
}
