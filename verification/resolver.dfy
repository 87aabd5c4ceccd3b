/**
 * The ordered directory search behind `fetch_file_data` and
 * `search_directories` (source/ijwt.ts:88-135), as functions of the store
 * and the network.  The methods of `Engine.IJwt` are proved to compute them.
 */
module Resolver {
  import opened Wrappers
  import opened Cache

  /** The two modes; only `production` reads from and writes to the cache. */
  datatype Mode = Development | Production

  /** The settings the search depends on. */
  datatype Config = Config(mode: Mode, siteBase: string, directories: seq<string>)

  /**
   * The network as the engine sees it.  `resolve(relative, base)` stands for
   * the `href` of `new URL(relative, base)`; `ok` maps every URL whose
   * request answers with `response.ok` to the text of its body.  A URL that
   * is absent stands for an unsuccessful response and a rejected request
   * alike, since both send the loop on to the next directory.
   */
  datatype Network = Network(resolve: (string, string) -> string, ok: map<string, string>)

  /** The URL tried for `name` in directory `dir`: `new URL(`${dir}/${name}`, site_base)`. */
  function Query(cfg: Config, net: Network, dir: string, name: string): string
  {
    net.resolve(dir + "/" + name, cfg.siteBase)
  }

  /** The first directory, from position `from` on, whose request succeeds. */
  function FirstOk(cfg: Config, net: Network, name: string, from: nat): (r: Option<nat>)
    requires from <= |cfg.directories|
    ensures r.Some? ==> from <= r.value < |cfg.directories|
    ensures r.Some? ==> Query(cfg, net, cfg.directories[r.value], name) in net.ok
    ensures r.Some? ==> forall j :: from <= j < r.value ==> Query(cfg, net, cfg.directories[j], name) !in net.ok
    ensures r.None? ==> forall j :: from <= j < |cfg.directories| ==> Query(cfg, net, cfg.directories[j], name) !in net.ok
    decreases |cfg.directories| - from
  {
    if from == |cfg.directories| then None
    else if Query(cfg, net, cfg.directories[from], name) in net.ok then Some(from)
    else FirstOk(cfg, net, name, from + 1)
  }

  /** The body of the first successful request, if any directory has one. */
  function Lookup(cfg: Config, net: Network, name: string): Option<string>
  {
    match FirstOk(cfg, net, name, 0)
    case None => None
    case Some(i) => Some(net.ok[Query(cfg, net, cfg.directories[i], name)])
  }

  /**
   * `fetch_file_data`: the text it returns and the store it leaves.  A
   * non-empty cached entry wins in production; otherwise the directories are
   * searched and, in production only, a found body is written to the cache.
   */
  function Fetch(cfg: Config, net: Network, store: Store, name: string): (Option<string>, Store)
  {
    var cached := Get(store, name);
    if cached.Some? && cfg.mode == Production then (cached, store)
    else
      match Lookup(cfg, net, name)
      case None => (None, store)
      case Some(body) => (Some(body), if cfg.mode == Production then Set(store, name, body) else store)
  }

  /** `search_directories`: the URL of the first successful request. */
  function Search(cfg: Config, net: Network, name: string): Option<string>
  {
    match FirstOk(cfg, net, name, 0)
    case None => None
    case Some(i) => Some(Query(cfg, net, cfg.directories[i], name))
  }

  /**
   * The text a fetch of `name` yields in a given store: the cached entry in
   * production when there is one, the directories' answer otherwise.
   */
  function Effective(cfg: Config, net: Network, store: Store, name: string): Option<string>
  {
    if cfg.mode == Production && Get(store, name).Some? then Get(store, name) else Lookup(cfg, net, name)
  }

  /** In production a non-empty cached entry is returned without consulting any directory. */
  lemma FetchCacheFirst(cfg: Config, net: Network, other: Network, store: Store, name: string)
    requires cfg.mode == Production && Get(store, name).Some?
    ensures Fetch(cfg, net, store, name) == (Get(store, name), store)
    ensures Fetch(cfg, net, store, name) == Fetch(cfg, other, store, name)
  {
  }

  /**
   * Without a cache hit the result is the body of the first directory whose
   * request succeeds, and absent exactly when every request fails.
   */
  lemma FetchFirstMatch(cfg: Config, net: Network, store: Store, name: string)
    requires !(cfg.mode == Production && Get(store, name).Some?)
    ensures Fetch(cfg, net, store, name).0.None? <==>
      forall j :: 0 <= j < |cfg.directories| ==> Query(cfg, net, cfg.directories[j], name) !in net.ok
    ensures Fetch(cfg, net, store, name).0.Some? ==>
      exists i :: 0 <= i < |cfg.directories| &&
        Query(cfg, net, cfg.directories[i], name) in net.ok &&
        Fetch(cfg, net, store, name).0.value == net.ok[Query(cfg, net, cfg.directories[i], name)] &&
        forall j :: 0 <= j < i ==> Query(cfg, net, cfg.directories[j], name) !in net.ok
  {
    var r := FirstOk(cfg, net, name, 0);
    if r.Some? {
      assert Query(cfg, net, cfg.directories[r.value], name) in net.ok;
    }
  }

  /** Directories after the first successful one are never consulted. */
  lemma {:induction false} FirstOkIgnoresLater(cfg: Config, net: Network, name: string, extra: seq<string>, from: nat)
    requires from <= |cfg.directories|
    requires FirstOk(cfg, net, name, from).Some?
    ensures FirstOk(cfg.(directories := cfg.directories + extra), net, name, from) == FirstOk(cfg, net, name, from)
    decreases |cfg.directories| - from
  {
    var cfg' := cfg.(directories := cfg.directories + extra);
    assert cfg'.directories[from] == cfg.directories[from];
    if Query(cfg, net, cfg.directories[from], name) !in net.ok {
      FirstOkIgnoresLater(cfg, net, name, extra, from + 1);
    }
  }

  /** Appending directories after one that answers changes neither result nor store. */
  lemma FetchIgnoresLater(cfg: Config, net: Network, store: Store, name: string, extra: seq<string>)
    requires Lookup(cfg, net, name).Some?
    ensures Fetch(cfg.(directories := cfg.directories + extra), net, store, name) == Fetch(cfg, net, store, name)
    ensures Search(cfg.(directories := cfg.directories + extra), net, name) == Search(cfg, net, name)
  {
    var cfg' := cfg.(directories := cfg.directories + extra);
    FirstOkIgnoresLater(cfg, net, name, extra, 0);
    var i := FirstOk(cfg, net, name, 0).value;
    assert cfg'.directories[i] == cfg.directories[i];
  }

  /** Only production mode writes to the cache. */
  lemma FetchDevelopmentKeepsStore(cfg: Config, net: Network, store: Store, name: string)
    requires cfg.mode == Development
    ensures Fetch(cfg, net, store, name).1 == store
    ensures Fetch(cfg, net, store, name).0 == Lookup(cfg, net, name)
  {
  }

  /** In production a body found in a directory is written under the entry's key. */
  lemma FetchProductionStores(cfg: Config, net: Network, store: Store, name: string)
    requires cfg.mode == Production && Get(store, name).None?
    requires Lookup(cfg, net, name).Some?
    ensures Fetch(cfg, net, store, name).1 == Set(store, name, Lookup(cfg, net, name).value)
    ensures Get(Fetch(cfg, net, store, name).1, name) ==
      if Lookup(cfg, net, name).value == "" then None else Lookup(cfg, net, name)
  {
    GetAfterSet(store, name, Lookup(cfg, net, name).value);
  }

  /** After `delete(name)` the next fetch goes back to the directories. */
  lemma FetchAfterDelete(cfg: Config, net: Network, store: Store, name: string)
    ensures Fetch(cfg, net, Delete(store, name), name).0 == Lookup(cfg, net, name)
  {
    GetAfterDelete(store, name, name);
  }

  /**
   * Caching is transparent: a fetch yields the effective text of its name,
   * and the store it leaves yields the same effective text for every name.
   */
  lemma FetchEffective(cfg: Config, net: Network, store: Store, name: string)
    ensures Fetch(cfg, net, store, name).0 == Effective(cfg, net, store, name)
    ensures forall n :: Effective(cfg, net, Fetch(cfg, net, store, name).1, n) == Effective(cfg, net, store, n)
  {
    var store' := Fetch(cfg, net, store, name).1;
    forall n
      ensures Effective(cfg, net, store', n) == Effective(cfg, net, store, n)
    {
      if store' != store {
        var body := Lookup(cfg, net, name).value;
        assert store' == Set(store, name, body);
        if n == name {
          GetAfterSet(store, name, body);
        } else {
          GetAfterSetOther(store, name, n, body);
        }
      }
    }
  }

  /** `search_directories` finds a URL exactly when `fetch_file_data` would find a body there. */
  lemma SearchAgreesWithLookup(cfg: Config, net: Network, name: string)
    ensures Search(cfg, net, name).Some? <==> Lookup(cfg, net, name).Some?
    ensures Search(cfg, net, name).Some? ==>
      Search(cfg, net, name).value in net.ok && Lookup(cfg, net, name) == Some(net.ok[Search(cfg, net, name).value])
  {
  }
}
