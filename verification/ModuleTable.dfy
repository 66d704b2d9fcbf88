/**
 The table of open modules: a list of handles with reference counts, and the
 reference each module holds on every module it depends on.
 */
module ModuleTable {

  /** An open module: its file, its reference count, the handles it depends on. */
  datatype Module = Module(file: string, refCount: int, deps: seq<nat>)

  type Records = map<nat, Module>

  /** `handles` is the linked list, the most recently registered module first. */
  datatype Table = Table(handles: seq<nat>, rec: Records, next: nat)

  // ---------- the list and its dependency slots ----------

  /** A handle occurs once, and a module's dependencies come after it: they were
      registered before it. */
  ghost predicate Ordered(hs: seq<nat>, rec: Records) {
    hs == [] ||
    (hs[0] in rec && hs[0] !in hs[1..]
     && (forall d :: d in rec[hs[0]].deps ==> d in hs[1..])
     && Ordered(hs[1..], rec))
  }

  /** All dependency slots of the listed modules, with multiplicity. */
  ghost function Slots(hs: seq<nat>, rec: Records): multiset<nat> {
    if hs == [] then multiset{}
    else (if hs[0] in rec then multiset(rec[hs[0]].deps) else multiset{}) + Slots(hs[1..], rec)
  }

  ghost predicate UniqueFiles(rec: Records) {
    forall g, h :: g in rec && h in rec && rec[g].file == rec[h].file ==> g == h
  }

  /** Every count is the number of slots naming the module plus the opens of it. */
  ghost predicate Balanced(rec: Records, slots: multiset<nat>, clients: multiset<nat>) {
    forall h :: h in rec ==> rec[h].refCount == slots[h] + clients[h] && rec[h].refCount >= 1
  }

  /** The conservation invariant.  `clients` are the opens not yet closed, by clients
      and by modules being loaded or unloaded. */
  ghost predicate Inv(t: Table, clients: multiset<nat>) {
    && Ordered(t.handles, t.rec)
    && (forall h :: h in t.handles <==> h in t.rec)
    && (forall h :: h in t.rec ==> h < t.next)
    && (forall h :: h in clients ==> h in t.rec)
    && Balanced(t.rec, Slots(t.handles, t.rec), clients)
  }

  // ---------- growing and shrinking ----------

  /** The same module, whatever its count. */
  predicate SameModule(a: Module, b: Module) { a.file == b.file && a.deps == b.deps }

  /** u lists what t lists, behind possibly new modules. */
  ghost predicate Grown(t: Table, u: Table) {
    && |t.handles| <= |u.handles| && u.handles[|u.handles| - |t.handles|..] == t.handles
    && (forall h :: h in t.rec ==> h in u.rec && SameModule(t.rec[h], u.rec[h]))
  }

  function Keep(hs: seq<nat>, s: set<nat>): seq<nat> {
    if hs == [] then [] else (if hs[0] in s then [hs[0]] else []) + Keep(hs[1..], s)
  }

  /** u lists some of what t lists, in the same order. */
  ghost predicate Shrunk(t: Table, u: Table) {
    && u.handles == Keep(t.handles, u.rec.Keys) && u.next == t.next
    && (forall h :: h in u.rec ==> h in t.rec && SameModule(t.rec[h], u.rec[h]))
  }

  lemma {:induction false} KeepAll(hs: seq<nat>, s: set<nat>)
    requires forall h :: h in hs ==> h in s
    ensures Keep(hs, s) == hs
  {
    if hs != [] {
      KeepAll(hs[1..], s);
    }
  }

  lemma {:induction false} KeepNone(hs: seq<nat>, s: set<nat>)
    requires forall h :: h in hs ==> h !in s
    ensures Keep(hs, s) == []
  {
    if hs != [] {
      KeepNone(hs[1..], s);
    }
  }

  lemma {:induction false} KeepAppend(a: seq<nat>, b: seq<nat>, s: set<nat>)
    ensures Keep(a + b, s) == Keep(a, s) + Keep(b, s)
  {
    if a == [] {
      assert a + b == b;
    } else {
      var first := if a[0] in s then [a[0]] else [];
      assert (a + b)[1..] == a[1..] + b && (a + b)[0] == a[0];
      KeepAppend(a[1..], b, s);
      assert Keep(a + b, s) == first + (Keep(a[1..], s) + Keep(b, s));
      assert Keep(a, s) == first + Keep(a[1..], s);
    }
  }

  lemma {:induction false} KeepTwice(hs: seq<nat>, s: set<nat>, r: set<nat>)
    requires r <= s
    ensures Keep(Keep(hs, s), r) == Keep(hs, r)
  {
    if hs != [] {
      KeepTwice(hs[1..], s, r);
      KeepAppend(if hs[0] in s then [hs[0]] else [], Keep(hs[1..], s), r);
    }
  }

  lemma {:induction false} KeepBounds(hs: seq<nat>, s: set<nat>)
    ensures |Keep(hs, s)| <= |hs|
    ensures forall h :: h in Keep(hs, s) <==> h in hs && h in s
  {
    if hs != [] {
      KeepBounds(hs[1..], s);
    }
  }

  lemma ShrunkTrans(t: Table, u: Table, v: Table)
    requires Shrunk(t, u) && Shrunk(u, v)
    ensures Shrunk(t, v)
  {
    KeepTwice(t.handles, u.rec.Keys, v.rec.Keys);
  }

  lemma ShrunkRefl(t: Table)
    requires forall h :: h in t.handles ==> h in t.rec
    ensures Shrunk(t, t)
  {
    KeepAll(t.handles, t.rec.Keys);
  }

  lemma GrownTrans(t: Table, u: Table, v: Table)
    requires Grown(t, u) && Grown(u, v)
    ensures Grown(t, v)
  {
    var n := |v.handles| - |t.handles|;
    assert v.handles[n..] == v.handles[|v.handles| - |u.handles|..][|u.handles| - |t.handles|..];
  }

  // ---------- frame facts ----------

  lemma {:induction false} SlotsLocal(hs: seq<nat>, a: Records, b: Records)
    requires forall h :: h in hs ==> h in a && h in b && a[h].deps == b[h].deps
    ensures Slots(hs, a) == Slots(hs, b) && Ordered(hs, a) == Ordered(hs, b)
  {
    if hs != [] {
      SlotsLocal(hs[1..], a, b);
    }
  }

  lemma {:induction false} OrderedAt(hs: seq<nat>, rec: Records, j: nat)
    requires Ordered(hs, rec) && j < |hs|
    ensures hs[j] in rec && hs[j] !in hs[j + 1..] && hs[j] !in hs[..j]
    ensures forall d :: d in rec[hs[j]].deps ==> d in hs[j + 1..]
  {
    if j > 0 {
      OrderedAt(hs[1..], rec, j - 1);
      assert hs[1..][j..] == hs[j + 1..];
      assert hs[..j] == [hs[0]] + hs[1..][..j - 1];
    }
  }

  lemma Distinct(hs: seq<nat>, rec: Records, i: nat, j: nat)
    requires Ordered(hs, rec) && i < j < |hs|
    ensures hs[i] != hs[j]
  {
    OrderedAt(hs, rec, i);
    assert hs[i + 1..][j - i - 1] == hs[j];
  }

  /** A handle with a dependency slot is named by a module before it in the list. */
  lemma {:induction false} SlotOwner(hs: seq<nat>, rec: Records, h: nat) returns (j: nat, m: nat)
    requires Ordered(hs, rec) && Slots(hs, rec)[h] > 0
    ensures j < m < |hs| && hs[j] in rec && h in rec[hs[j]].deps && hs[m] == h
  {
    if h in rec[hs[0]].deps {
      j := 0;
      var i :| 0 <= i < |hs[1..]| && hs[1..][i] == h;
      m := i + 1;
    } else {
      j, m := SlotOwner(hs[1..], rec, h);
      j, m := j + 1, m + 1;
    }
  }

  lemma DepsListed(t: Table, clients: multiset<nat>, g: nat, d: nat)
    requires Inv(t, clients) && g in t.rec && d in t.rec[g].deps
    ensures d in t.rec
  {
    var j :| 0 <= j < |t.handles| && t.handles[j] == g;
    OrderedAt(t.handles, t.rec, j);
    assert d in t.handles[j + 1..];
    assert d in t.handles;
  }

  // ---------- reachability ----------

  /** Each element names the next as a dependency. */
  ghost predicate Path(rec: Records, p: seq<nat>) {
    p != [] && forall i :: 0 <= i < |p| - 1 ==> p[i] in rec && p[i + 1] in rec[p[i]].deps
  }

  /** No module is kept without a reason: from every listed module a chain of
      dependency slots leads back to an open that has not been closed. */
  lemma NoLeak(t: Table, clients: multiset<nat>, h: nat) returns (p: seq<nat>)
    requires Inv(t, clients) && h in t.rec
    ensures Path(t.rec, p) && p[0] in clients && p[|p| - 1] == h
  {
    var i :| 0 <= i < |t.handles| && t.handles[i] == h;
    p := NoLeakAt(t, clients, i);
  }

  lemma {:induction false} NoLeakAt(t: Table, clients: multiset<nat>, i: nat) returns (p: seq<nat>)
    requires Inv(t, clients) && i < |t.handles|
    ensures Path(t.rec, p) && p[0] in clients && p[|p| - 1] == t.handles[i]
    decreases i
  {
    var h := t.handles[i];
    if h in clients {
      p := [h];
    } else {
      assert h in t.rec;
      var j, m := SlotOwner(t.handles, t.rec, h);
      if i < m {
        Distinct(t.handles, t.rec, i, m);
      } else if m < i {
        Distinct(t.handles, t.rec, m, i);
      }
      var q := NoLeakAt(t, clients, j);
      p := q + [h];
    }
  }

  /** When every open has been closed the table is empty. */
  lemma AllClosed(t: Table)
    requires Inv(t, multiset{})
    ensures t.handles == [] && t.rec == map[]
  {
    if t.handles != [] {
      assert t.handles[0] in t.rec;
      var p := NoLeakAt(t, multiset{}, 0);
    }
    assert forall h :: h !in t.rec;
  }

  /** A chain that starts at a module of u stays in u where u agrees with t. */
  lemma {:induction false} PathStays(t: Table, u: Table, clients: multiset<nat>, p: seq<nat>, i: nat)
    requires Inv(u, clients) && Path(t.rec, p) && p[0] in u.rec && i < |p|
    requires forall g :: g in t.rec && g in u.rec ==> t.rec[g].deps == u.rec[g].deps
    ensures p[i] in u.rec
    decreases i
  {
    if i > 0 {
      PathStays(t, u, clients, p, i - 1);
      DepsListed(u, clients, p[i - 1], p[i]);
    }
  }

  /** What is reachable from fewer opens is reachable from more: the modules of t
      survive in any table that grew out of t and keeps its opens. */
  lemma Survive(t: Table, u: Table, before: multiset<nat>, after: multiset<nat>)
    requires Inv(t, before) && Inv(u, after) && before <= after
    requires forall g :: g in t.rec && g in u.rec ==> t.rec[g].deps == u.rec[g].deps
    ensures t.rec.Keys <= u.rec.Keys
  {
    forall h | h in t.rec
      ensures h in u.rec
    {
      var p := NoLeak(t, before, h);
      PathStays(t, u, after, p, |p| - 1);
    }
  }

  lemma GrownShrunk(t: Table, u: Table, v: Table)
    requires Grown(t, u) && Shrunk(u, v) && t.rec.Keys <= v.rec.Keys
    requires forall h :: h in t.handles ==> h in t.rec
    ensures Grown(t, v)
  {
    var n := |u.handles| - |t.handles|;
    KeepAppend(u.handles[..n], t.handles, v.rec.Keys);
    assert u.handles == u.handles[..n] + t.handles;
    KeepAll(t.handles, v.rec.Keys);
  }

  /** A list without repetitions that ends in another with the same elements is that list. */
  lemma SameList(a: seq<nat>, b: seq<nat>, rec: Records)
    requires |a| <= |b| && b[|b| - |a|..] == a && (forall h :: h in b ==> h in a) && Ordered(b, rec)
    ensures a == b
  {
    forall i, j | 0 <= i < j < |b|
      ensures b[i] != b[j]
    {
      Distinct(b, rec, i, j);
    }
  }

  /** A table is determined by its opens, its list and what the modules depend on. */
  lemma SameCounts(t: Table, v: Table, clients: multiset<nat>)
    requires Inv(t, clients) && Inv(v, clients) && t.handles == v.handles && t.rec.Keys == v.rec.Keys
    requires forall h :: h in t.rec && h in v.rec ==> SameModule(t.rec[h], v.rec[h])
    ensures v.rec == t.rec
  {
    SlotsLocal(t.handles, t.rec, v.rec);
    SameRecords(t.rec, v.rec, Slots(t.handles, t.rec), clients);
  }

  lemma SameRecords(r: Records, s: Records, slots: multiset<nat>, clients: multiset<nat>)
    requires Balanced(r, slots, clients) && Balanced(s, slots, clients) && r.Keys == s.Keys
    requires forall h :: h in r && h in s ==> SameModule(r[h], s[h])
    ensures r == s
  {
    forall h | h in r
      ensures h in s && s[h] == r[h]
    {
      assert h in s.Keys;
    }
  }

  lemma Between(t: Table, u: Table, v: Table)
    requires Grown(t, u) && Shrunk(u, v)
    ensures forall g :: g in t.rec && g in v.rec ==> SameModule(t.rec[g], v.rec[g])
  {
  }

  lemma SameModules(t: Table, u: Table, v: Table, clients: multiset<nat>)
    requires Inv(t, clients) && Inv(v, clients) && Grown(t, u) && Shrunk(u, v)
    ensures t.rec.Keys == v.rec.Keys
    ensures forall g :: g in t.rec && g in v.rec ==> SameModule(t.rec[g], v.rec[g])
  {
    Between(t, u, v);
    Survive(t, v, clients, clients);
    Survive(v, t, clients, clients);
  }

  lemma SameOrder(t: Table, u: Table, v: Table)
    requires Grown(t, u) && Shrunk(u, v) && t.rec.Keys == v.rec.Keys
    requires forall h :: h in t.handles <==> h in t.rec
    requires Ordered(v.handles, v.rec) && forall h :: h in v.handles ==> h in v.rec
    ensures v.handles == t.handles
  {
    GrownShrunk(t, u, v);
    SameList(t.handles, v.handles, v.rec);
  }

  /** Growing and shrinking back to the same opens restores the table, counts included. */
  lemma Restored(t: Table, u: Table, v: Table, clients: multiset<nat>)
    requires Inv(t, clients) && Inv(v, clients) && Grown(t, u) && Shrunk(u, v)
    ensures v.handles == t.handles && v.rec == t.rec
  {
    SameModules(t, u, v, clients);
    SameOrder(t, u, v);
    SameCounts(t, v, clients);
  }

  // ---------- single steps ----------

  function Recount(t: Table, h: nat, step: int): Table
    requires h in t.rec
  {
    t.(rec := t.rec[h := t.rec[h].(refCount := t.rec[h].refCount + step)])
  }

  lemma RecountKeepsList(t: Table, h: nat, step: int)
    requires Ordered(t.handles, t.rec) && h in t.rec && forall g :: g in t.handles ==> g in t.rec
    ensures var u := Recount(t, h, step);
      Ordered(u.handles, u.rec) && Slots(u.handles, u.rec) == Slots(t.handles, t.rec)
  {
    SlotsLocal(t.handles, t.rec, Recount(t, h, step).rec);
  }

  lemma RecountBalance(rec: Records, slots: multiset<nat>, clients: multiset<nat>, after: multiset<nat>, h: nat,
                       step: int)
    requires h in rec && Balanced(rec, slots, clients) && rec[h].refCount + step >= 1
    requires after[h] == clients[h] + step && forall g :: g != h ==> after[g] == clients[g]
    ensures Balanced(rec[h := rec[h].(refCount := rec[h].refCount + step)], slots, after)
  {
  }

  /** Opening again. */
  lemma ReopenKeeps(t: Table, clients: multiset<nat>, h: nat)
    requires Inv(t, clients) && h in t.rec
    ensures Inv(Recount(t, h, 1), clients + multiset{h})
  {
    RecountBalance(t.rec, Slots(t.handles, t.rec), clients, clients + multiset{h}, h, 1);
    RecountKeeps(t, h, 1, clients, clients + multiset{h});
  }

  lemma RecountKeeps(t: Table, h: nat, step: int, clients: multiset<nat>, after: multiset<nat>)
    requires Inv(t, clients) && h in t.rec && forall g :: g in after ==> g in clients || g == h
    requires Balanced(Recount(t, h, step).rec, Slots(t.handles, t.rec), after)
    ensures Inv(Recount(t, h, step), after)
  {
    RecountKeepsList(t, h, step);
    SameKeys(t, h, step);
  }

  lemma SameKeys(t: Table, h: nat, step: int)
    requires h in t.rec
    ensures forall g :: g in t.rec <==> g in Recount(t, h, step).rec
  {
  }

  /** Closing when other references remain. */
  lemma ReleaseKeeps(t: Table, clients: multiset<nat>, h: nat)
    requires Inv(t, clients) && h in clients && t.rec[h].refCount > 1
    ensures Inv(Recount(t, h, -1), clients - multiset{h})
  {
    RecountBalance(t.rec, Slots(t.handles, t.rec), clients, clients - multiset{h}, h, -1);
    RecountKeeps(t, h, -1, clients, clients - multiset{h});
  }

  /** Registering a loaded module takes over the references held for its dependencies. */
  function Insert(t: Table, m: Module): Table {
    Table([t.next] + t.handles, t.rec[t.next := m], t.next + 1)
  }

  lemma InsertKeeps(t: Table, clients: multiset<nat>, m: Module)
    requires Inv(t, clients + multiset(m.deps)) && m.refCount == 1
    ensures Inv(Insert(t, m), clients + multiset{t.next}) && Grown(t, Insert(t, m))
  {
    InsertSlots(t, clients, m);
    InsertCounts(t, clients, m);
    InsertGrows(t, m);
  }

  lemma InsertGrows(t: Table, m: Module)
    requires t.next !in t.rec
    ensures Grown(t, Insert(t, m))
  {
  }

  lemma InsertCounts(t: Table, clients: multiset<nat>, m: Module)
    requires Inv(t, clients + multiset(m.deps)) && m.refCount == 1 && t.next !in t.handles
    ensures Balanced(Insert(t, m).rec, multiset(m.deps) + Slots(t.handles, t.rec), clients + multiset{t.next})
  {
    NoSlotsFor(t.handles, t.rec, t.next);
    assert t.next !in clients + multiset(m.deps);
    InsertBalance(t.rec, Slots(t.handles, t.rec), clients, m, t.next);
  }

  lemma InsertSlots(t: Table, clients: multiset<nat>, m: Module)
    requires Inv(t, clients + multiset(m.deps))
    ensures var u := Insert(t, m);
      && t.next !in t.rec && t.next !in t.handles && u.handles[1..] == t.handles
      && Slots(u.handles, u.rec) == multiset(m.deps) + Slots(t.handles, t.rec)
      && Ordered(u.handles, u.rec)
  {
    var u := Insert(t, m);
    SlotsLocal(t.handles, t.rec, u.rec);
    assert u.handles[1..] == t.handles;
    forall d | d in m.deps
      ensures d in t.handles
    {
      assert d in clients + multiset(m.deps);
    }
  }

  lemma InsertBalance(rec: Records, slots: multiset<nat>, clients: multiset<nat>, m: Module, next: nat)
    requires Balanced(rec, slots, clients + multiset(m.deps)) && m.refCount == 1 && next !in rec
    requires slots[next] == 0 && clients[next] == 0 && next !in m.deps
    ensures Balanced(rec[next := m], multiset(m.deps) + slots, clients + multiset{next})
  {
  }

  lemma {:induction false} NoSlotsFor(hs: seq<nat>, rec: Records, h: nat)
    requires Ordered(hs, rec) && h !in hs
    ensures Slots(hs, rec)[h] == 0
  {
    if Slots(hs, rec)[h] > 0 {
      var j, m := SlotOwner(hs, rec, h);
    }
  }

  /** The table without one handle. */
  function Unlinked(t: Table, h: nat): Table {
    t.(handles := Keep(t.handles, t.rec.Keys - {h}), rec := t.rec - {h})
  }

  lemma UnlinkAt(hs: seq<nat>, rec: Records, i: nat)
    requires Ordered(hs, rec) && i < |hs|
    ensures hs[..i] + hs[i + 1..] == Keep(hs, rec.Keys - {hs[i]})
  {
    var s := rec.Keys - {hs[i]};
    OrderedAt(hs, rec, i);
    ListedIn(hs, rec);
    assert hs == hs[..i] + ([hs[i]] + hs[i + 1..]);
    KeepAppend(hs[..i], [hs[i]] + hs[i + 1..], s);
    KeepAppend([hs[i]], hs[i + 1..], s);
    KeepAll(hs[..i], s);
    KeepAll(hs[i + 1..], s);
    KeepNone([hs[i]], s);
    assert [] + hs[i + 1..] == hs[i + 1..];
  }

  lemma {:induction false} KeepOrdered(hs: seq<nat>, rec: Records, h: nat)
    requires Ordered(hs, rec) && h in hs && h in rec && Slots(hs, rec)[h] == 0
    ensures var r := Keep(hs, rec.Keys - {h});
      Ordered(r, rec) && Slots(hs, rec) == Slots(r, rec) + multiset(rec[h].deps)
  {
    var s := rec.Keys - {h};
    var rest := Keep(hs[1..], s);
    KeepBounds(hs[1..], s);
    ListedIn(hs[1..], rec);
    if hs[0] == h {
      KeepAll(hs[1..], s);
      assert Keep(hs, s) == hs[1..];
    } else {
      KeepOrdered(hs[1..], rec, h);
      assert Keep(hs, s) == [hs[0]] + rest && ([hs[0]] + rest)[1..] == rest;
    }
  }

  lemma UnlinkList(t: Table, clients: multiset<nat>, h: nat)
    requires Inv(t, clients) && h in clients && t.rec[h].refCount == 1
    ensures var u := Unlinked(t, h);
      && Ordered(u.handles, u.rec) && (forall g :: g in u.handles <==> g in u.rec)
      && Slots(t.handles, t.rec) == Slots(u.handles, u.rec) + multiset(t.rec[h].deps)
      && clients[h] == 1
  {
    assert h in t.handles && Slots(t.handles, t.rec)[h] == 0;
    KeepOrdered(t.handles, t.rec, h);
    KeepBounds(t.handles, t.rec.Keys - {h});
    SlotsLocal(Unlinked(t, h).handles, t.rec, Unlinked(t, h).rec);
  }

  lemma UnlinkShrinks(t: Table, h: nat)
    requires Ordered(t.handles, t.rec) && h in t.handles
    ensures Shrunk(t, Unlinked(t, h)) && |Unlinked(t, h).handles| == |t.handles| - 1
  {
    var i :| 0 <= i < |t.handles| && t.handles[i] == h;
    UnlinkAt(t.handles, t.rec, i);
    assert Unlinked(t, h).rec.Keys == t.rec.Keys - {h};
  }

  lemma UnlinkBalance(rec: Records, slots: multiset<nat>, deps: multiset<nat>, clients: multiset<nat>, h: nat)
    requires h in rec && h in clients && Balanced(rec, slots + deps, clients)
    ensures Balanced(rec - {h}, slots, clients - multiset{h} + deps)
  {
    forall g | g in rec - {h}
      ensures rec[g].refCount == slots[g] + (clients - multiset{h} + deps)[g]
    {
      assert g != h && (clients - multiset{h})[g] == clients[g];
    }
  }

  lemma UnlinkClients(t: Table, clients: multiset<nat>, h: nat, g: nat)
    requires Inv(t, clients) && h in t.rec && clients[h] == 1
    requires g in clients - multiset{h} + multiset(t.rec[h].deps)
    ensures g in t.rec && g != h
  {
    SelfFree(t, clients, h);
    if g in t.rec[h].deps {
      DepsListed(t, clients, h, g);
    } else {
      assert (clients - multiset{h})[g] > 0;
    }
  }

  /** Closing the last reference: the module is unlinked, and the references it held
      are now held by whoever unloads it. */
  lemma UnlinkKeeps(t: Table, clients: multiset<nat>, h: nat)
    requires Inv(t, clients) && h in clients && t.rec[h].refCount == 1
    ensures Inv(Unlinked(t, h), clients - multiset{h} + multiset(t.rec[h].deps))
  {
    var u := Unlinked(t, h);
    var after := clients - multiset{h} + multiset(t.rec[h].deps);
    UnlinkList(t, clients, h);
    assert Balanced(u.rec, Slots(u.handles, u.rec), after) by {
      UnlinkBalance(t.rec, Slots(u.handles, u.rec), multiset(t.rec[h].deps), clients, h);
    }
    forall g | g in after
      ensures g in u.rec
    {
      UnlinkClients(t, clients, h, g);
    }
  }

  lemma SelfFree(t: Table, clients: multiset<nat>, h: nat)
    requires Inv(t, clients) && h in t.rec
    ensures h !in t.rec[h].deps
  {
    var j :| 0 <= j < |t.handles| && t.handles[j] == h;
    OrderedAt(t.handles, t.rec, j);
  }

  lemma {:induction false} ListedIn(hs: seq<nat>, rec: Records)
    requires Ordered(hs, rec)
    ensures forall h :: h in hs ==> h in rec
  {
    if hs != [] {
      ListedIn(hs[1..], rec);
    }
  }

  // ---------- the steps of the code ----------

  /** Cutting a handle out of the list after its count was lowered. */
  lemma CutIsUnlinked(t: Table, i: nat)
    requires Ordered(t.handles, t.rec) && i < |t.handles| && t.handles[i] in t.rec
    ensures var h := t.handles[i];
      Table(t.handles[..i] + t.handles[i + 1..], Recount(t, h, -1).rec - {h}, t.next) == Unlinked(t, h)
  {
    UnlinkAt(t.handles, t.rec, i);
    assert Recount(t, t.handles[i], -1).rec - {t.handles[i]} == t.rec - {t.handles[i]};
  }

  lemma CloseLast(t: Table, clients: multiset<nat>, h: nat)
    requires Inv(t, clients) && h in clients && t.rec[h].refCount == 1
    ensures Inv(Unlinked(t, h), clients - multiset{h} + multiset(t.rec[h].deps))
    ensures Shrunk(t, Unlinked(t, h)) && |Unlinked(t, h).handles| == |t.handles| - 1
  {
    UnlinkKeeps(t, clients, h);
    UnlinkShrinks(t, h);
  }

  /** Dropping a reference that is not the last. */
  lemma CloseMore(t: Table, clients: multiset<nat>, h: nat)
    requires Inv(t, clients) && h in clients && t.rec[h].refCount > 1
    ensures Inv(Recount(t, h, -1), clients - multiset{h}) && Shrunk(t, Recount(t, h, -1))
  {
    ReleaseKeeps(t, clients, h);
    KeepAll(t.handles, Recount(t, h, -1).rec.Keys);
  }

  lemma FilesStay(t: Table, u: Table)
    requires UniqueFiles(t.rec) && forall g :: g in u.rec ==> g in t.rec && SameModule(t.rec[g], u.rec[g])
    ensures UniqueFiles(u.rec)
  {
  }

  /** One more reference while `deps` are still held for a module being loaded. */
  lemma OpenMore(t: Table, u: Table, clients: multiset<nat>, deps: multiset<nat>, c: nat)
    requires Inv(u, clients + deps) && c in u.rec && Grown(t, u)
    ensures Inv(Recount(u, c, 1), clients + multiset{c} + deps) && Grown(t, Recount(u, c, 1))
  {
    ReopenKeeps(u, clients + deps, c);
    SwapClients(clients, deps, c);
    GrownMore(t, u, c);
  }

  lemma SwapClients(clients: multiset<nat>, deps: multiset<nat>, c: nat)
    ensures clients + deps + multiset{c} == clients + multiset{c} + deps
  {
  }

  lemma GrownMore(t: Table, u: Table, c: nat)
    requires Grown(t, u) && c in u.rec
    ensures Grown(t, Recount(u, c, 1))
  {
  }
}
