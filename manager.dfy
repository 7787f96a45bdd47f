/**
 * The registry of the proxy package: a Manager maps names to proxies and
 * adds, removes, lists and looks them up. Its read/write lock only
 * serialises these operations, so each method here is one atomic step.
 */
module Manager {
  import opened Errors
  import Proxy

  /** The Detail snapshot of one entry: a copy, disconnected from the proxy. */
  datatype Detail = Detail(name: string, local: string, remote: string, running: bool)

  /** The names a list of snapshots covers. */
  function Names(details: seq<Detail>): set<string> {
    set i | 0 <= i < |details| :: details[i].name
  }

  lemma NamesAppend(details: seq<Detail>, d: Detail)
    ensures Names(details + [d]) == Names(details) + {d.name}
  {
    var all := details + [d];
    forall x | x in Names(all) ensures x in Names(details) + {d.name} {
      var i :| 0 <= i < |all| && all[i].name == x;
      if i < |details| {
        assert details[i] == all[i];
      }
    }
    forall x | x in Names(details) + {d.name} ensures x in Names(all) {
      if x == d.name {
        assert all[|details|] == d;
      } else {
        var i :| 0 <= i < |details| && details[i].name == x;
        assert all[i] == details[i];
      }
    }
  }

  class Manager {
    var dict: map<string, Proxy.Proxy>

    /** No two names share a proxy: every entry is built by its own call to New. */
    ghost predicate Valid()
      reads this
    {
      forall a, b :: a in dict && b in dict && a != b ==> dict[a] != dict[b]
    }

    /** The snapshot Details takes of entry `name`. */
    function Snapshot(name: string): Detail
      reads this, dict.Values
      requires name in dict
    {
      Detail(name, dict[name].config.local, dict[name].config.remote, dict[name].running)
    }

    /** The registry's abstract state: every entry, seen through its snapshot. */
    ghost function Entries(): map<string, Detail>
      reads this, dict.Values
    {
      map n | n in dict :: Snapshot(n)
    }

    /** NewManager: an empty registry. */
    constructor ()
      ensures Valid() && dict == map[]
    {
      dict := map[];
    }

    /** Exists: whether `name` is registered; reading only. */
    function Exists(name: string): (b: bool)
      reads this
      ensures b <==> name in dict
    {
      name in dict
    }

    /**
     * add: a name already present is an error and leaves the registry as it
     * was; a fresh name is mapped to `p`, every other entry unchanged.
     */
    method AddEntry(name: string, p: Proxy.Proxy) returns (err: Option<Error>)
      requires Valid() && p !in dict.Values
      modifies this
      ensures Valid()
      ensures name in old(dict) ==> err == Some(ProxyExists(name)) && dict == old(dict)
      ensures name !in old(dict) ==> err == None && dict == old(dict)[name := p]
    {
      if name in dict {
        return Some(ProxyExists(name));
      }
      dict := dict[name := p];
      return None;
    }

    /**
     * The second half of Add, once New has built the proxy from `config`: a
     * duplicate name is rejected before Run is called; otherwise the entry is
     * inserted and then run, so it stays registered (and idle) when binding
     * fails. `listen` is the result of binding the local address.
     */
    method Register(name: string, config: Proxy.Config, listen: Option<Error>)
      returns (err: Option<Error>)
      requires Valid()
      modifies this
      ensures Valid()
      ensures name in old(dict) ==>
                err == Some(ProxyExists(name)) && dict == old(dict) && Entries() == old(Entries())
      ensures name !in old(dict) ==>
                && name in dict && fresh(dict[name]) && dict[name].config == config
                && dict == old(dict)[name := dict[name]]
                && err == listen
                && Entries() == old(Entries())[name := Detail(name, config.local, config.remote, listen.None?)]
    {
      var p := new Proxy.Proxy(config);
      err := AddEntry(name, p);
      if err.Some? {
        return;
      }
      err := p.Run(listen);
      assert Entries() == old(Entries())[name := Snapshot(name)];
    }

    /**
     * Add: builds the proxy with New and returns New's error without touching
     * the registry; otherwise registers and runs it as Register describes.
     */
    method Add(name: string, local: string, remote: string, timeout: int, failFast: bool,
               listen: Option<Error>)
      returns (err: Option<Error>)
      requires Valid()
      modifies this
      ensures Valid()
      ensures var r := Proxy.New(name, local, remote, timeout, failFast);
              r.Err? ==> err == Some(r.error) && dict == old(dict) && Entries() == old(Entries())
      ensures var r := Proxy.New(name, local, remote, timeout, failFast);
              r.Ok? && name in old(dict) ==>
                err == Some(ProxyExists(name)) && dict == old(dict) && Entries() == old(Entries())
      ensures var r := Proxy.New(name, local, remote, timeout, failFast);
              r.Ok? && name !in old(dict) ==>
                && name in dict && fresh(dict[name]) && dict[name].config == r.value
                && dict == old(dict)[name := dict[name]]
                && err == listen
                && Entries() == old(Entries())[name := Detail(name, r.value.local, r.value.remote, listen.None?)]
    {
      var r := Proxy.New(name, local, remote, timeout, failFast);
      if r.Err? {
        return Some(r.error);
      }
      err := Register(name, r.value, listen);
    }

    /**
     * remove: an absent name is an error and leaves the registry as it was;
     * a present one is deleted, and nothing else.
     */
    method RemoveEntry(name: string) returns (err: Option<Error>)
      requires Valid()
      modifies this
      ensures Valid()
      ensures name !in old(dict) ==> err == Some(ProxyNotExists(name)) && dict == old(dict)
      ensures name in old(dict) ==> err == None && dict == old(dict) - {name}
    {
      if name !in dict {
        return Some(ProxyNotExists(name));
      }
      dict := dict - {name};
      return None;
    }

    /**
     * Remove: stops the entry's proxy, ignoring Stop's error, then deletes the
     * entry. The source dereferences the entry before checking that it
     * exists, so an absent name is a nil-pointer panic: callers must name a
     * registered proxy.
     */
    method Remove(name: string) returns (err: Option<Error>)
      requires Valid() && name in dict
      modifies this, dict[name]
      ensures Valid() && err == None
      ensures dict == old(dict) - {name} && !old(dict)[name].running
      ensures Entries() == old(Entries()) - {name}
    {
      var p := dict[name];
      var ignored := p.Stop();
      err := RemoveEntry(name);
      forall n | n in dict
        ensures n in old(dict) && dict[n] == old(dict)[n] && dict[n].running == old(dict[n].running)
      {
        assert n != name && old(dict)[n] != p;
      }
      assert Entries() == old(Entries()) - {name};
    }

    /**
     * Details: one snapshot per entry, in the map's iteration order, which
     * the source leaves unspecified: as many snapshots as entries, their names
     * exactly the registered names, each carrying that entry's addresses and
     * running flag.
     */
    method Details() returns (details: seq<Detail>)
      ensures |details| == |dict|
      ensures Names(details) == dict.Keys
      ensures forall i :: 0 <= i < |details| ==>
                details[i].name in dict && details[i] == Snapshot(details[i].name)
    {
      details := [];
      var rest := dict.Keys;
      while rest != {}
        invariant rest <= dict.Keys
        invariant Names(details) == dict.Keys - rest
        invariant |details| + |rest| == |dict.Keys|
        invariant forall i :: 0 <= i < |details| ==>
                    details[i].name in dict && details[i] == Snapshot(details[i].name)
        decreases rest
      {
        var name :| name in rest;
        var p := dict[name];
        var detail := Detail(name, p.config.local, p.config.remote, p.running);
        assert detail == Snapshot(name);
        NamesAppend(details, detail);
        details := details + [detail];
        assert rest == (rest - {name}) + {name};
        rest := rest - {name};
      }
    }
  }

  /**
   * Repeated add/remove cycles on one name, with the local port free each
   * time: every Add succeeds and registers the name, every Remove unregisters
   * it, and the registry ends as it began.
   */
  method AddRemoveCycles(m: Manager, name: string, local: string, remote: string, timeout: int,
                         failFast: bool, cycles: nat)
    returns (ok: bool)
    requires m.Valid() && name !in m.dict
    requires Proxy.New(name, local, remote, timeout, failFast).Ok?
    modifies m
    ensures ok && m.Valid() && m.dict == old(m.dict)
  {
    ok := true;
    var k := 0;
    while k < cycles
      invariant m.Valid() && m.dict == old(m.dict) && ok
    {
      var added := m.Add(name, local, remote, timeout, failFast, None);
      ok := ok && added == None && m.Exists(name);
      var removed := m.Remove(name);
      ok := ok && removed == None && !m.Exists(name);
      k := k + 1;
    }
  }
}
