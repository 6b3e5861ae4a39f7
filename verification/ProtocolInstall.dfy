/**
 Installing several protocol interfaces at once (lib/hand.c), over the firmware's handle database
 (section 7.3 of the UEFI Specification).
 */
module ProtocolInstall {

  type Handle = nat

  type Guid = nat

  type Interface = nat

  const NULL: Handle := 0
  const TPL_NOTIFY: nat := 16

  datatype Status = Success | InvalidParameter | NotFound | AccessDenied | OutOfResources

  type Protocols = map<Guid, Interface>

  type Database = map<Handle, Protocols>

  datatype Entry = Entry(protocol: Guid, interface: Interface)

  /** A handle exists as long as it carries an interface. */
  function With(db: Database, h: Handle, p: Protocols): Database {
    if p == map[] then db - {h} else db[h := p]
  }

  function On(db: Database, h: Handle): Protocols {
    if h in db then db[h] else map[]
  }

  predicate Sound(db: Database) {
    NULL !in db && forall h <- db :: db[h] != map[]
  }

  /** The boot services that keep the database. Every call may fail for want of memory, new handles are any
      handles, and drivers may hold interfaces open. */
  class Services {
    var db: Database
    /** Interfaces that some driver has open and does not release. */
    var busy: set<(Handle, Guid)>
    var tpl: nat
    /** The priority levels at which the database was changed. */
    ghost var levels: set<nat>
    /** What the calls of InstallProtocolInterface returned. */
    ghost var installs: seq<Status>

    predicate Valid()
      reads this
    {
      Sound(db)
    }

    method RaiseTPL(level: nat) returns (before: nat)
      requires tpl <= level
      modifies `tpl
      ensures before == old(tpl) && tpl == level
    {
      before, tpl := tpl, level;
    }

    /** Below TPL_NOTIFY the pending notifications run, and open or close interfaces. */
    method RestoreTPL(level: nat)
      requires level <= tpl
      modifies `tpl, `busy
      ensures tpl == level
    {
      var held: set<(Handle, Guid)> :| true;
      tpl, busy := level, held;
    }

    /** InstallProtocolInterface, which makes a new handle for NULL. */
    method InstallProtocolInterface(handle: Handle, e: Entry) returns (status: Status, h: Handle)
      requires Valid()
      modifies `db, `busy, `levels, `installs
      ensures Valid() && installs == old(installs) + [status]
      ensures status.Success? ==>
        && h != NULL && (handle == NULL ==> h !in old(db)) && (handle != NULL ==> h == handle && h in old(db))
        && e.protocol !in On(old(db), h) && db == With(old(db), h, On(old(db), h)[e.protocol := e.interface])
        && busy == old(busy) - {(h, e.protocol)} && levels == old(levels) + {tpl}
      ensures !status.Success? ==> h == handle && db == old(db) && busy == old(busy) && levels == old(levels)
    {
      h := handle;
      var memory: bool :| true;
      if !memory {
        installs := installs + [OutOfResources];
        return OutOfResources, h;
      }
      if h == NULL {
        h := FreshHandle();
      } else if h !in db || e.protocol in db[h] {
        installs := installs + [InvalidParameter];
        return InvalidParameter, h;
      }
      var protocols := On(db, h)[e.protocol := e.interface];
      assert e.protocol in protocols;
      db := db[h := protocols];
      busy := busy - {(h, e.protocol)};
      levels := levels + {tpl};
      status := Success;
      installs := installs + [status];
    }

    method FreshHandle() returns (h: Handle)
      ensures h != NULL && h !in db
    {
      assert exists n: Handle :: n != NULL && n !in db by {
        Unused(db.Keys);
      }
      h :| h != NULL && h !in db;
    }

    /** UninstallProtocolInterface. */
    method UninstallProtocolInterface(handle: Handle, e: Entry) returns (status: Status)
      requires Valid()
      modifies `db, `levels
      ensures Valid()
      ensures db == Without(old(db), handle, e, busy)
      ensures status.Success? <==> Carries(old(db), handle, e) && (handle, e.protocol) !in busy
      ensures status.AccessDenied? <==> Carries(old(db), handle, e) && (handle, e.protocol) in busy
      ensures levels == old(levels) || levels == old(levels) + {tpl}
    {
      if handle == NULL {
        status := InvalidParameter;
      } else if handle !in db || e.protocol !in db[handle] || db[handle][e.protocol] != e.interface {
        status := NotFound;
      } else if (handle, e.protocol) in busy {
        status := AccessDenied;
      } else {
        db := With(db, handle, db[handle] - {e.protocol});
        levels := levels + {tpl};
        status := Success;
      }
    }
  }

  lemma {:induction false} Bounded(s: set<nat>) returns (n: nat)
    ensures forall x <- s :: x < n
  {
    if s == {} {
      n := 0;
    } else {
      var x :| x in s;
      n := Bounded(s - {x});
      n := if x < n then n else x + 1;
      assert s == (s - {x}) + {x};
    }
  }

  lemma Unused(s: set<nat>)
    ensures exists n: nat :: n != 0 && n !in s
  {
    var n := Bounded(s);
    assert n + 1 !in s;
  }

  predicate Carries(db: Database, h: Handle, e: Entry) {
    h in db && e.protocol in db[h] && db[h][e.protocol] == e.interface
  }

  /** The database after one uninstall. */
  function Without(db: Database, h: Handle, e: Entry, busy: set<(Handle, Guid)>): Database {
    if Carries(db, h, e) && (h, e.protocol) !in busy
    then With(db, h, db[h] - {e.protocol}) else db
  }

  /** The database after a list of them. */
  function WithoutAll(db: Database, h: Handle, list: seq<Entry>, busy: set<(Handle, Guid)>): Database {
    if list == [] then db else WithoutAll(Without(db, h, list[0], busy), h, list[1..], busy)
  }

  function Added(list: seq<Entry>): Protocols {
    if list == [] then map[] else Added(list[..|list| - 1])[list[|list| - 1].protocol := list[|list| - 1].interface]
  }

  /** No protocol of the list twice, and none on the handle before. */
  predicate Addable(list: seq<Entry>, p: Protocols) {
    && (forall i, j | 0 <= i < j < |list| :: list[i].protocol != list[j].protocol)
    && forall e <- list :: e.protocol !in p
  }

  function Names(list: seq<Entry>): set<Guid> {
    set e <- list :: e.protocol
  }

  lemma {:induction false} AddedHas(list: seq<Entry>, p: Protocols)
    requires Addable(list, p)
    ensures Added(list).Keys == Names(list)
    ensures forall i | 0 <= i < |list| ::
      list[i].protocol in Added(list) && Added(list)[list[i].protocol] == list[i].interface
  {
    if list != [] {
      var n := |list| - 1;
      AddedHas(list[..n], p);
      assert list == list[..n] + [list[n]];
    }
  }

  lemma WithOwn(db: Database, h: Handle)
    requires Sound(db)
    ensures With(db, h, On(db, h)) == db
  {
  }

  lemma WithoutOne(db: Database, h: Handle, p: Protocols, e: Entry, busy: set<(Handle, Guid)>)
    requires e.protocol in p && p[e.protocol] == e.interface && (h, e.protocol) !in busy
    ensures Without(With(db, h, p), h, e, busy) == With(db, h, p - {e.protocol})
  {
  }

  /** What is left of the list when `k` entries are gone again. */
  function Remaining(base: Protocols, list: seq<Entry>, k: nat): Protocols
    requires k <= |list|
  {
    base + (Added(list) - Names(list[..k]))
  }

  lemma TakeOne(base: Protocols, a: Protocols, gone: set<Guid>, g: Guid)
    requires g !in base && g in a && g !in gone
    ensures g in base + (a - gone) && (base + (a - gone))[g] == a[g]
    ensures (base + (a - gone)) - {g} == base + (a - (gone + {g}))
  {
  }

  lemma NamesNext(list: seq<Entry>, k: nat)
    requires k < |list|
    ensures Names(list[..k + 1]) == Names(list[..k]) + {list[k].protocol}
  {
    assert list[..k + 1] == list[..k] + [list[k]];
  }

  lemma RemainingSteps(base: Protocols, list: seq<Entry>, k: nat)
    requires k < |list| && Addable(list, base)
    ensures var p, e := Remaining(base, list, k), list[k];
      && e.protocol in p && p[e.protocol] == e.interface
      && p - {e.protocol} == Remaining(base, list, k + 1)
  {
    hide Added, Names, Addable;
    AddedHas(list, base);
    NewName(base, list, k);
    NamesNext(list, k);
    TakeOne(base, Added(list), Names(list[..k]), list[k].protocol);
  }

  lemma NewName(base: Protocols, list: seq<Entry>, k: nat)
    requires k < |list| && Addable(list, base)
    ensures list[k].protocol !in base && list[k].protocol !in Names(list[..k])
  {
    assert list[k] in list;
  }

  lemma RemainingEnds(base: Protocols, list: seq<Entry>)
    requires Addable(list, base)
    ensures Remaining(base, list, 0) == base + Added(list) && Remaining(base, list, |list|) == base
  {
    hide Added;
    AddedHas(list, base);
    assert list[..|list|] == list && list[..0] == [];
    assert Added(list) - {} == Added(list);
    assert Added(list) - Names(list) == map[];
    assert base + map[] == base;
  }

  /** The uninstalls from `k` on remove what those before have left. */
  lemma {:induction false} UndoFrom(db: Database, h: Handle, base: Protocols, list: seq<Entry>,
                                    k: nat, busy: set<(Handle, Guid)>)
    requires k <= |list| && Addable(list, base) && forall e <- list :: (h, e.protocol) !in busy
    ensures WithoutAll(With(db, h, Remaining(base, list, k)), h, list[k..], busy) == With(db, h, base)
    decreases |list| - k
  {
    hide Without, With, Remaining, Addable;
    if k == |list| {
      RemainingEnds(base, list);
    } else {
      RemainingSteps(base, list, k);
      assert list[k] in list;
      WithoutOne(db, h, Remaining(base, list, k), list[k], busy);
      assert list[k..][0] == list[k] && list[k..][1..] == list[k + 1..];
      UndoFrom(db, h, base, list, k + 1, busy);
    }
  }

  /** MAIN: uninstalling a list takes back that it was installed, on a new or an old handle. */
  lemma UninstallUndoes(db: Database, h: Handle, list: seq<Entry>, busy: set<(Handle, Guid)>)
    requires Sound(db) && Addable(list, On(db, h)) && forall e <- list :: (h, e.protocol) !in busy
    ensures WithoutAll(With(db, h, On(db, h) + Added(list)), h, list, busy) == db
  {
    hide *;
    RemainingEnds(On(db, h), list);
    UndoFrom(db, h, On(db, h), list, 0, busy);
    assert list[0..] == list;
    WithOwn(db, h);
  }

  lemma AddableNext(list: seq<Entry>, i: nat, p: Protocols)
    requires i < |list| && Addable(list[..i], p)
    requires list[i].protocol !in p + Added(list[..i])
    ensures Addable(list[..i + 1], p)
  {
    hide Added;
    AddedHas(list[..i], p);
    assert list[..i + 1] == list[..i] + [list[i]];
  }

  lemma AddedNext(list: seq<Entry>, i: nat)
    requires i < |list|
    ensures Added(list[..i + 1]) == Added(list[..i])[list[i].protocol := list[i].interface]
  {
    assert list[..i + 1][..i] == list[..i];
  }

  lemma WithTwice(db: Database, h: Handle, p: Protocols, q: Protocols)
    ensures On(With(db, h, p), h) == p && With(With(db, h, p), h, q) == With(db, h, q)
  {
  }

  /** One more entry on the handle. */
  lemma InstallNext(db: Database, h: Handle, list: seq<Entry>, i: nat, before: Database)
    requires i < |list| && Addable(list[..i], On(db, h)) && before == With(db, h, On(db, h) + Added(list[..i]))
    requires list[i].protocol !in On(before, h)
    ensures Addable(list[..i + 1], On(db, h))
    ensures With(before, h, On(before, h)[list[i].protocol := list[i].interface])
      == With(db, h, On(db, h) + Added(list[..i + 1]))
  {
    hide *;
    var p := On(db, h) + Added(list[..i]);
    WithTwice(db, h, p, p[list[i].protocol := list[i].interface]);
    AddableNext(list, i, On(db, h));
    AddedNext(list, i);
    assert p[list[i].protocol := list[i].interface] == On(db, h) + Added(list[..i + 1]);
  }

  /** The calls since there were `before` succeeded up to the last, which returned `status`. */
  ghost predicate Calls(bs: Services, before: seq<Status>, status: Status)
    reads bs`installs
  {
    && |bs.installs| > |before| && bs.installs[..|before|] == before
    && (forall k | |before| <= k < |bs.installs| - 1 :: bs.installs[k].Success?)
    && bs.installs[|bs.installs| - 1] == status
  }

  /** MAIN: LibInstallProtocolInterfaces installs the whole list on one handle, or changes neither the
      database nor the handle; in any case at TPL_NOTIFY only, and the priority level is as before. There is one
      call for each entry up to the first that fails, and only such a call makes it fail. */
  method LibInstallProtocolInterfaces(bs: Services, handle: Handle, list: seq<Entry>)
    returns (status: Status, h: Handle)
    requires bs.Valid() && bs.tpl <= TPL_NOTIFY
    modifies bs
    ensures bs.Valid() && bs.tpl == old(bs.tpl) && bs.levels <= old(bs.levels) + {16}
    ensures if list == [] then status.Success? else Calls(bs, old(bs.installs), status)
    ensures |bs.installs| <= |old(bs.installs)| + |list|
    ensures status.Success? ==> |bs.installs| == |old(bs.installs)| + |list|
    ensures status.Success? ==>
      && (list != [] ==> h != NULL && (handle == NULL ==> h !in old(bs.db)))
      && (handle != NULL || list == [] ==> h == handle)
      && Addable(list, On(old(bs.db), h))
      && bs.db == With(old(bs.db), h, On(old(bs.db), h) + Added(list))
    ensures !status.Success? ==> h == handle && bs.db == old(bs.db)
  {
    hide Without, Added, On, With, Addable;
    var oldTpl := bs.RaiseTPL(TPL_NOTIFY);
    ghost var db := bs.db;
    h := handle;
    var index := 0;
    status := Success;
    Nothing(db, h);
    while status.Success? && index < |list|
      invariant index <= |list| && bs.Valid() && bs.tpl == TPL_NOTIFY && bs.levels <= old(bs.levels) + {TPL_NOTIFY}
      invariant h == handle || (handle == NULL && h != NULL && h !in db && index > 0)
      invariant index > 0 ==> h != NULL
      invariant index == 0 || Calls(bs, old(bs.installs), Success)
      invariant status.Success? && |bs.installs| == |old(bs.installs)| + index
      invariant bs.installs[..|old(bs.installs)|] == old(bs.installs)
      invariant Addable(list[..index], On(db, h)) && bs.db == With(db, h, On(db, h) + Added(list[..index]))
      invariant forall e <- list[..index] :: (h, e.protocol) !in bs.busy
      invariant !status.Success? ==> index < |list|
      decreases |list| - index, status.Success?
    {
      ghost var before := bs.db;
      status, h := bs.InstallProtocolInterface(h, list[index]);
      if !status.Success? {
        break;
      }
      if index == 0 {
        Nothing(db, h);
      }
      InstallNext(db, h, list, index, before);
      assert list[..index + 1] == list[..index] + [list[index]];
      index := index + 1;
    }
    if !status.Success? {
      ghost var done, installs := list[..index], bs.installs;
      UninstallUndoes(db, h, done, bs.busy);
      var i := 0;
      while index > 0
        invariant i + index == |done| && bs.Valid() && bs.tpl == TPL_NOTIFY
          && bs.levels <= old(bs.levels) + {TPL_NOTIFY}
        invariant WithoutAll(bs.db, h, done[i..], bs.busy) == db && bs.installs == installs
      {
        assert done[i..][0] == list[i] && done[i..][1..] == done[i + 1..];
        var ignored := bs.UninstallProtocolInterface(h, list[i]);
        i, index := i + 1, index - 1;
      }
      h := handle;
    } else {
      assert list[..index] == list;
    }
    bs.RestoreTPL(oldTpl);
  }

  /** MAIN: after an installation each entry of the list is on the handle, and else everything as before. */
  lemma InstalledExactly(db: Database, h: Handle, list: seq<Entry>, after: Database)
    requires Sound(db) && h != 0 && Addable(list, On(db, h)) && after == With(db, h, On(db, h) + Added(list))
    ensures list != [] ==> h in after
    ensures forall e <- list :: h in after && e.protocol in after[h] && after[h][e.protocol] == e.interface
    ensures forall g: Guid | forall e <- list :: e.protocol != g ::
      && (h in after && g in after[h] <==> h in db && g in db[h])
      && (h in after && g in after[h] ==> after[h][g] == db[h][g])
    ensures forall x: Handle | x != h :: (x in after <==> x in db) && (x in db ==> after[x] == db[x])
  {
    hide Added;
    AddedHas(list, On(db, h));
    forall e | e in list ensures h in after && e.protocol in after[h] && after[h][e.protocol] == e.interface {
      var i :| 0 <= i < |list| && list[i] == e;
      assert list[i].protocol in Added(list);
    }
    if list != [] {
      assert list[0] in list;
    }
  }

  /** An uninstall of the list takes the interface of protocol `g` away. */
  ghost predicate Removes(list: seq<Entry>, g: Guid, i: Interface) {
    exists e <- list :: e.protocol == g && e.interface == i
  }

  lemma OneRemoved(db: Database, h: Handle, e: Entry, busy: set<(Handle, Guid)>, g: Guid)
    requires Sound(db)
    ensures var after := Without(db, h, e, busy);
      && Sound(after)
      && (h in after && g in after[h] <==>
        h in db && g in db[h] && !(e.protocol == g && e.interface == db[h][g] && (h, g) !in busy))
      && (h in after && g in after[h] ==> after[h][g] == db[h][g])
      && forall x: Handle | x != h :: (x in after <==> x in db) && (x in db ==> after[x] == db[x])
  {
    if h in db {
      assert g in db[h] - {e.protocol} <==> g in db[h] && g != e.protocol;
    }
  }

  /** MAIN: uninstalling takes exactly the interfaces away that are in the list and in no use. */
  lemma {:induction false} RemovedExactly(db: Database, h: Handle, list: seq<Entry>, busy: set<(Handle, Guid)>, g: Guid)
    requires Sound(db)
    ensures var after := WithoutAll(db, h, list, busy);
      && (h in after && g in after[h] <==>
        h in db && g in db[h] && !(Removes(list, g, db[h][g]) && (h, g) !in busy))
      && (h in after && g in after[h] ==> after[h][g] == db[h][g])
      && forall x: Handle | x != h :: (x in after <==> x in db) && (x in db ==> after[x] == db[x])
    decreases |list|
  {
    hide Without, Sound, Removes;
    if list != [] {
      var mid := Without(db, h, list[0], busy);
      OneRemoved(db, h, list[0], busy, g);
      RemovedExactly(mid, h, list[1..], busy, g);
      if h in db && g in db[h] {
        RemovesNext(list, g, db[h][g]);
      }
    } else if h in db && g in db[h] {
      RemovesNothing(g, db[h][g]);
    }
  }

  lemma RemovesNothing(g: Guid, i: Interface)
    ensures !Removes([], g, i)
  {
  }

  lemma RemovesNext(list: seq<Entry>, g: Guid, i: Interface)
    requires list != []
    ensures Removes(list, g, i) <==> (list[0].protocol == g && list[0].interface == i) || Removes(list[1..], g, i)
  {
    assert forall e :: e in list <==> e == list[0] || e in list[1..];
  }

  lemma Nothing(db: Database, h: Handle)
    requires Sound(db)
    ensures Addable([], On(db, h)) && With(db, h, On(db, h) + Added([])) == db
  {
    assert On(db, h) + map[] == On(db, h);
    WithOwn(db, h);
  }

  /** LibUninstallProtocolInterfaces: failing entries are passed over. */
  method LibUninstallProtocolInterfaces(bs: Services, handle: Handle, list: seq<Entry>)
    requires bs.Valid()
    modifies bs`db, bs`levels
    ensures bs.Valid() && bs.db == WithoutAll(old(bs.db), handle, list, bs.busy)
  {
    hide Without;
    var i := 0;
    while i < |list|
      invariant i <= |list| && bs.Valid()
      invariant WithoutAll(bs.db, handle, list[i..], bs.busy) == WithoutAll(old(bs.db), handle, list, bs.busy)
    {
      var status := bs.UninstallProtocolInterface(handle, list[i]);
      assert list[i..][1..] == list[i + 1..];
      i := i + 1;
    }
  }
}
