/**
 The contract of the WebAssembly engine behind the arena: modules with their
 exported bodies, the indirect table, and which module owns which entry.
 */
module WasmHost {

  /** One exported body of one module. */
  datatype Fn = Fn(id: nat, body: nat)

  /** A live module: how many bodies it exports, and the table entry it owns for each resolved one. */
  datatype Instance = Instance(bodies: nat, entries: map<nat, nat>)

  datatype Host = Host(modules: map<nat, Instance>, table: map<nat, Fn>, next: nat)

  predicate Owns(h: Host, id: nat, body: nat, entry: nat) {
    id in h.modules && body in h.modules[id].entries && h.modules[id].entries[body] == entry
  }

  /** Every table entry runs the body of the one module that owns it, and handles are never reused. */
  ghost predicate Ok(h: Host) {
    && (forall e :: e in h.table ==> Owns(h, h.table[e].id, h.table[e].body, e))
    && (forall id, body :: id in h.modules && body in h.modules[id].entries ==> Runs(h, h.modules[id].entries[body], id, body))
    && (forall id :: id in h.modules ==> id < h.next)
  }

  /** What entering at `entry` executes. */
  predicate Runs(h: Host, entry: nat, id: nat, body: nat) {
    entry in h.table && h.table[entry] == Fn(id, body)
  }

  function Instantiate(h: Host, bodies: nat): Host {
    Host(h.modules[h.next := Instance(bodies, map[])], h.table, h.next + 1)
  }

  /** The entry of an export, made at a free table index the first time it is asked for; 0 for none. */
  function Resolve(h: Host, id: nat, body: nat, vacant: nat): (Host, nat) {
    if id !in h.modules || (body !in h.modules[id].entries && body >= h.modules[id].bodies) then (h, 0)
    else if body in h.modules[id].entries then (h, h.modules[id].entries[body])
    else if vacant == 0 || vacant in h.table then (h, 0)
    else
      var m := h.modules[id];
      (h.(modules := h.modules[id := m.(entries := m.entries[body := vacant])], table := h.table[vacant := Fn(id, body)]), vacant)
  }

  predicate CanAdopt(h: Host, to: nat, toBody: nat, from: nat) {
    to in h.modules && from in h.modules && toBody < h.modules[to].bodies
  }

  /** An existing entry pointed at another module's export, its ownership moved with it; nothing when that cannot be done. */
  function Adopt(h: Host, to: nat, toBody: nat, from: nat, fromBody: nat, entry: nat): Host {
    if !CanAdopt(h, to, toBody, from) then h
    else
      var t := h.modules[to];
      var taken := h.modules[to := t.(entries := t.entries[toBody := entry])];
      var f := taken[from];
      h.(table := h.table[entry := Fn(to, toBody)], modules := taken[from := f.(entries := f.entries - {fromBody})])
  }

  /** The module and every entry it owns. */
  function Release(h: Host, id: nat): Host {
    if id !in h.modules then h
    else h.(modules := h.modules - {id}, table := h.table - h.modules[id].entries.Values)
  }

  lemma InstantiateOk(h: Host, bodies: nat)
    requires Ok(h)
    ensures Ok(Instantiate(h, bodies))
    ensures forall e, id, body :: Runs(Instantiate(h, bodies), e, id, body) == Runs(h, e, id, body)
  {
    var h' := Instantiate(h, bodies);
    forall e | e in h'.table ensures Owns(h', h'.table[e].id, h'.table[e].body, e) {
      assert Owns(h, h.table[e].id, h.table[e].body, e);
    }
  }

  lemma ResolveOk(h: Host, id: nat, body: nat, vacant: nat)
    requires Ok(h)
    ensures var r := Resolve(h, id, body, vacant);
      && Ok(r.0) && (r.1 != 0 && id in h.modules ==> r.1 in r.0.table && r.0.table[r.1].id == id)
      && (forall e :: e in h.table ==> e in r.0.table && r.0.table[e] == h.table[e])
  {
    hide Ok;
    if id in h.modules && body !in h.modules[id].entries && body < h.modules[id].bodies && vacant != 0 && vacant !in h.table {
      FreshOk(h, id, body, vacant);
    } else if id in h.modules && body in h.modules[id].entries {
      OwnerRuns(h, id, body);
    }
  }

  lemma OwnerRuns(h: Host, id: nat, body: nat)
    requires Ok(h) && id in h.modules && body in h.modules[id].entries
    ensures Runs(h, h.modules[id].entries[body], id, body)
  {
  }

  lemma FreshOk(h: Host, id: nat, body: nat, vacant: nat)
    requires Ok(h) && id in h.modules && body !in h.modules[id].entries && vacant !in h.table
    ensures var m := h.modules[id];
      Ok(h.(modules := h.modules[id := m.(entries := m.entries[body := vacant])], table := h.table[vacant := Fn(id, body)]))
  {
    var m := h.modules[id];
    var h' := h.(modules := h.modules[id := m.(entries := m.entries[body := vacant])], table := h.table[vacant := Fn(id, body)]);
    forall e | e in h'.table ensures Owns(h', h'.table[e].id, h'.table[e].body, e) {
      if e != vacant { assert Owns(h, h.table[e].id, h.table[e].body, e); }
    }
    forall i, b | i in h'.modules && b in h'.modules[i].entries ensures Runs(h', h'.modules[i].entries[b], i, b) {
      if i != id || b != body { assert Runs(h, h.modules[i].entries[b], i, b); }
    }
  }

  /** Adopting an entry its source owns keeps the table and the owners in step. */
  lemma AdoptOk(h: Host, to: nat, toBody: nat, from: nat, fromBody: nat, entry: nat)
    requires Ok(h) && CanAdopt(h, to, toBody, from) && to != from
    requires Owns(h, from, fromBody, entry) && toBody !in h.modules[to].entries
    ensures Ok(Adopt(h, to, toBody, from, fromBody, entry))
  {
    var h' := Adopt(h, to, toBody, from, fromBody, entry);
    assert Runs(h, entry, from, fromBody);
    forall e | e in h'.table ensures Owns(h', h'.table[e].id, h'.table[e].body, e) {
      if e != entry { assert Owns(h, h.table[e].id, h.table[e].body, e); }
    }
    forall i, b | i in h'.modules && b in h'.modules[i].entries ensures Runs(h', h'.modules[i].entries[b], i, b) {
      if i != to || b != toBody { assert Runs(h, h.modules[i].entries[b], i, b); }
    }
  }

  /** Releasing a module takes its own entries out of the table and no others. */
  lemma ReleaseOk(h: Host, id: nat)
    requires Ok(h)
    ensures Ok(Release(h, id))
    ensures forall e :: e in h.table && h.table[e].id != id ==> e in Release(h, id).table && Release(h, id).table[e] == h.table[e]
    ensures forall e :: e in Release(h, id).table ==> e in h.table && Release(h, id).table[e] == h.table[e] && h.table[e].id != id
  {
    if id in h.modules {
      var h' := Release(h, id);
      var own := h.modules[id].entries;
      assert own == h.modules[id].entries;
      forall e | e in own.Values ensures e in h.table && h.table[e].id == id {
        var b :| b in own && own[b] == e;
        assert Runs(h, h.modules[id].entries[b], id, b);
      }
      forall e | e in h.table && h.table[e].id == id ensures e in own.Values {
        assert Owns(h, h.table[e].id, h.table[e].body, e);
        assert own[h.table[e].body] == e;
      }
      forall e | e in h'.table ensures Owns(h', h'.table[e].id, h'.table[e].body, e) {
        assert Owns(h, h.table[e].id, h.table[e].body, e);
      }
      forall i, b | i in h'.modules && b in h'.modules[i].entries ensures Runs(h', h'.modules[i].entries[b], i, b) {
        assert Runs(h, h.modules[i].entries[b], i, b);
      }
    } else {
      forall e | e in h.table ensures h.table[e].id != id {
        assert Owns(h, h.table[e].id, h.table[e].body, e);
      }
    }
  }

  /** What each call does to the modules: one more, one fewer, one entry from one to another, and nothing else. */
  lemma ModulesChange(h: Host, id: nat, bodies: nat)
    ensures Instantiate(h, bodies).modules == h.modules[h.next := Instance(bodies, map[])] && Instantiate(h, bodies).table == h.table
    ensures Release(h, id).modules == map m | m in h.modules && m != id :: h.modules[m]
  {
  }

  lemma AdoptMoves(h: Host, to: nat, toBody: nat, from: nat, fromBody: nat, entry: nat)
    requires CanAdopt(h, to, toBody, from) && to != from
    ensures var g := Adopt(h, to, toBody, from, fromBody, entry);
      && Runs(g, entry, to, toBody) && Owns(g, to, toBody, entry) && fromBody !in g.modules[from].entries
      && (forall e :: e in g.table && e != entry ==> e in h.table && g.table[e] == h.table[e])
      && g.modules.Keys == h.modules.Keys && (forall m :: m in h.modules && m != to && m != from ==> g.modules[m] == h.modules[m])
      && (forall b :: b != toBody ==> (b in g.modules[to].entries <==> b in h.modules[to].entries))
      && (forall b :: b != fromBody ==> (b in g.modules[from].entries <==> b in h.modules[from].entries))
  {
  }

  /** Resolving gives the export's own entry, the same every time, or none for no export or no place. */
  lemma ResolveGives(h: Host, id: nat, body: nat, vacant: nat)
    requires Ok(h) && id in h.modules
    ensures var r := Resolve(h, id, body, vacant);
      if body in h.modules[id].entries then r == (h, h.modules[id].entries[body])
      else if body < h.modules[id].bodies && vacant != 0 && vacant !in h.table then r.1 == vacant && Runs(r.0, vacant, id, body)
      else r == (h, 0)
  {
  }
}
