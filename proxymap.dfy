/**
  `NewProxyMap` (devproxycmd/mapping.go): from the list of mappings it
  builds the path table, adds the trailing-slash aliases, registers a
  handler per path with the mux, and gives every mapping a reverse proxy
  whose transport is shared by all mappings with the same origin.

  A `*PathMap` is named by its position in the list of mappings, so two
  table entries that hold the same `*PathMap` hold the same number. A
  transport is a number handed out by a counter. Go's map iteration order
  is unspecified: every loop below picks its next key with `:|`, so what
  each method promises holds for every order.
 */
module ProxyMaps {
  import opened Wrappers
  import opened Strings
  import opened Urls
  import opened Mapping
  import opened Routing

  /** The table after the fill loop: each path holds the position of the last mapping with that path. */
  function PathIndex(ms: seq<PathMap>): (t: map<string, nat>)
    ensures forall i :: 0 <= i < |ms| ==> ms[i].path in t
    ensures forall p :: p in t ==> t[p] < |ms| && ms[t[p]].path == p
    ensures forall p, j :: p in t && t[p] < j < |ms| ==> ms[j].path != p
  {
    if |ms| == 0 then map[]
    else
      var init := ms[..|ms| - 1];
      var prev := PathIndex(init);
      PathIndexAppend(ms, init, prev);
      prev[ms[|ms| - 1].path := |ms| - 1]
  }

  /** The fill loop's turn for the mapping at position `i` stores it under its path. */
  lemma PathIndexStep(ms: seq<PathMap>, i: nat)
    requires i < |ms|
    ensures PathIndex(ms[..i + 1]) == PathIndex(ms[..i])[ms[i].path := i]
  {
    assert ms[..i + 1][..i] == ms[..i];
  }

  /** Storing the last mapping under its path keeps the table pointing at the last mapping for each path. */
  lemma PathIndexAppend(ms: seq<PathMap>, init: seq<PathMap>, prev: map<string, nat>)
    requires |ms| > 0 && init == ms[..|ms| - 1]
    requires forall i :: 0 <= i < |init| ==> init[i].path in prev
    requires forall p :: p in prev ==> prev[p] < |init| && init[prev[p]].path == p
    requires forall p, j :: p in prev && prev[p] < j < |init| ==> init[j].path != p
    ensures var t := prev[ms[|ms| - 1].path := |ms| - 1];
      && (forall i :: 0 <= i < |ms| ==> ms[i].path in t)
      && (forall p :: p in t ==> t[p] < |ms| && ms[t[p]].path == p)
      && (forall p, j :: p in t && t[p] < j < |ms| ==> ms[j].path != p)
  {
    assert forall i :: 0 <= i < |init| ==> init[i] == ms[i];
  }

  /** The aliases the alias loop adds once it has visited the keys in `done`: `k + "/"` for each visited key `k` without a trailing slash. */
  function AliasKeys(t: map<string, nat>, done: set<string>): set<string>
  {
    set k | k in done && k in t && !HasSuffix(k, "/") :: k + "/"
  }

  /** The table once the alias loop has visited the keys in `done`: every original entry, and each alias of a visited key that was not already a key, pointing where its stem points. */
  function AliasesFor(t: map<string, nat>, done: set<string>): map<string, nat>
  {
    map k | k in t.Keys + AliasKeys(t, done) :: if k in t then t[k] else t[k[..|k| - 1]]
  }

  /** The table after the alias loop. */
  function Aliased(t: map<string, nat>): map<string, nat>
  {
    AliasesFor(t, t.Keys)
  }

  /** One turn of the alias loop on the current table `cur`, for the key `path`. */
  function AliasStep(cur: map<string, nat>, path: string): map<string, nat>
  {
    if path in cur && !HasSuffix(path, "/") && path + "/" !in cur then cur[path + "/" := cur[path]]
    else cur
  }

  lemma SlashSuffix(k: string)
    ensures HasSuffix(k + "/", "/")
  {
    assert (k + "/")[|k + "/"| - 1..] == "/";
  }

  /** A turn of the alias loop moves the table from having visited `done` to having visited `done` and `path`. */
  lemma AliasStepFor(t: map<string, nat>, done: set<string>, path: string)
    ensures AliasStep(AliasesFor(t, done), path) == AliasesFor(t, done + ({path} * t.Keys))
  {
    if path in t && !HasSuffix(path, "/") {
      AliasStepOriginal(t, done, path);
    } else if path in AliasesFor(t, done) && path !in t {
      AliasStepAdded(t, done, path);
    } else {
      assert AliasKeys(t, done + ({path} * t.Keys)) == AliasKeys(t, done);
    }
  }

  /** Visiting an original key without a trailing slash adds its alias unless it is already a key. */
  lemma AliasStepOriginal(t: map<string, nat>, done: set<string>, path: string)
    requires path in t && !HasSuffix(path, "/")
    ensures AliasStep(AliasesFor(t, done), path) == AliasesFor(t, done + ({path} * t.Keys))
  {
    var cur := AliasesFor(t, done);
    var next := AliasesFor(t, done + ({path} * t.Keys));
    SlashSuffix(path);
    assert (path + "/")[..|path + "/"| - 1] == path;
    assert AliasKeys(t, done + ({path} * t.Keys)) == AliasKeys(t, done) + {path + "/"};
    if path + "/" in cur {
      assert next.Keys == cur.Keys;
      assert next == cur;
    } else {
      assert next.Keys == cur.Keys + {path + "/"};
      assert next == cur[path + "/" := t[path]];
    }
  }

  /** Visiting an added alias changes nothing: it ends in a slash. */
  lemma AliasStepAdded(t: map<string, nat>, done: set<string>, path: string)
    requires path in AliasesFor(t, done) && path !in t
    ensures AliasStep(AliasesFor(t, done), path) == AliasesFor(t, done + ({path} * t.Keys))
  {
    assert path in AliasKeys(t, done);
    var b :| b in done && b in t && !HasSuffix(b, "/") && path == b + "/";
    SlashSuffix(b);
    assert {path} * t.Keys == {};
    assert done + ({path} * t.Keys) == done;
  }

  lemma AliasLoopStep(t: map<string, nat>, done: set<string>, todo: set<string>, path: string, cur: map<string, nat>, next: map<string, nat>)
    requires path in todo && todo <= t.Keys && done == t.Keys - todo
    requires cur == AliasesFor(t, done)
    requires next == AliasStep(cur, path)
    ensures next == AliasesFor(t, done + {path}) && done + {path} == t.Keys - (todo - {path})
  {
    AliasStepFor(t, done, path);
    assert {path} * t.Keys == {path};
  }

  /** The alias loop run over the keys in `order`, one turn per key. */
  function AliasFold(t: map<string, nat>, order: seq<string>): map<string, nat>
  {
    if |order| == 0 then t
    else AliasStep(AliasFold(t, order[..|order| - 1]), order[|order| - 1])
  }

  lemma {:induction false} AliasFoldVisits(t: map<string, nat>, order: seq<string>)
    ensures AliasFold(t, order) == AliasesFor(t, (set k | k in order) * t.Keys)
  {
    if |order| == 0 {
      assert AliasKeys(t, {}) == {};
    } else {
      var init := order[..|order| - 1];
      AliasFoldVisits(t, init);
      AliasStepFor(t, (set k | k in init) * t.Keys, order[|order| - 1]);
      assert (set k | k in order) == (set k | k in init) + {order[|order| - 1]};
    }
  }

  /**
    The alias loop's result does not depend on the order in which Go
    visits the keys: any order that visits every original key at least
    once gives the same table, whether it repeats keys or also visits the
    aliases added along the way.
   */
  lemma AliasFoldAnyOrder(t: map<string, nat>, order: seq<string>)
    requires forall k :: k in t ==> k in order
    ensures AliasFold(t, order) == Aliased(t)
  {
    AliasFoldVisits(t, order);
    assert (set k | k in order) * t.Keys == t.Keys;
  }

  /** The alias pass keeps every entry it found. */
  lemma AliasedKeeps(t: map<string, nat>)
    ensures forall k :: k in t ==> k in Aliased(t) && Aliased(t)[k] == t[k]
  {
  }

  /** After the alias pass every key without a trailing slash has its alias. */
  lemma AliasedComplete(t: map<string, nat>)
    ensures forall k :: k in Aliased(t) && !HasSuffix(k, "/") ==> k + "/" in Aliased(t)
  {
    AliasedAdds(t);
    forall k | k in Aliased(t) && !HasSuffix(k, "/") ensures k + "/" in Aliased(t) {
      assert k in t;
      assert k + "/" in AliasKeys(t, t.Keys);
    }
  }

  /**
    Every key the alias pass adds ends in a slash, comes from exactly one
    key without a trailing slash, and points where that key points: two
    distinct keys never share an alias.
   */
  lemma AliasedAdds(t: map<string, nat>)
    ensures forall k :: k in Aliased(t) && k !in t ==>
      && HasSuffix(k, "/")
      && k[..|k| - 1] in t
      && !HasSuffix(k[..|k| - 1], "/")
      && k == k[..|k| - 1] + "/"
      && Aliased(t)[k] == t[k[..|k| - 1]]
  {
    forall k | k in Aliased(t) && k !in t
      ensures HasSuffix(k, "/") && k[..|k| - 1] in t && !HasSuffix(k[..|k| - 1], "/") && k == k[..|k| - 1] + "/"
    {
      var b :| b in t && !HasSuffix(b, "/") && k == b + "/";
      assert k[..|k| - 1] == b;
      SlashSuffix(b);
    }
  }

  /** The keys after the alias pass: the original keys and the alias of each one without a trailing slash, nothing more. */
  lemma AliasedKeys(t: map<string, nat>)
    ensures Aliased(t).Keys == t.Keys + (set k | k in t && !HasSuffix(k, "/") :: k + "/")
  {
  }

  /** An added key never triggers another alias: a second alias pass changes nothing. */
  lemma AliasedIdempotent(t: map<string, nat>)
    ensures Aliased(Aliased(t)) == Aliased(t)
  {
    var a := Aliased(t);
    AliasedComplete(t);
    assert AliasKeys(a, a.Keys) <= a.Keys;
    assert Aliased(a).Keys == a.Keys;
  }

  /** A reverse proxy: its transport, and the target its `Rewrite` closure rewrites toward. */
  datatype ReverseProxy = ReverseProxy(transport: nat, target: Url)

  /** How a transport key is made from a target: `OriginKey` in `NewProxyMap`. */
  type KeyOf = Url -> string

  /** Transports numbered 0 up to `count`, one number per key and no number shared by two keys. */
  ghost predicate Numbering(transports: map<string, nat>, count: nat)
  {
    && (forall key :: key in transports ==> transports[key] < count)
    && (forall n: nat :: n < count ==> n in transports.Values)
    && (forall k1, k2 :: k1 in transports && k2 in transports && transports[k1] == transports[k2] ==> k1 == k2)
  }

  /** The keys of the mappings at positions `seen`. */
  function KeysOf(ms: seq<PathMap>, seen: set<nat>, keyOf: KeyOf): set<string>
  {
    set i | i in seen && i < |ms| :: keyOf(ms[i].target)
  }

  /** For each mapping at a position in `seen`, a proxy toward its target on the transport of its key. */
  ghost predicate ProxiesWith(ms: seq<PathMap>, seen: set<nat>, keyOf: KeyOf, transports: map<string, nat>, proxies: map<nat, ReverseProxy>)
  {
    && proxies.Keys == seen
    && (forall i :: i in proxies && i < |ms| ==>
          keyOf(ms[i].target) in transports
          && proxies[i] == ReverseProxy(transports[keyOf(ms[i].target)], ms[i].target))
  }

  /**
    The transport pool and the proxies after the pool loop has visited the
    mappings at positions `seen`, when a target's transport key is
    `keyOf(target)`: one transport per distinct key among them, numbered
    0 up to the number of keys and never shared by two keys, and for each
    visited mapping a proxy toward its target on the transport of its key.
   */
  ghost predicate PoolWith(ms: seq<PathMap>, seen: set<nat>, keyOf: KeyOf, transports: map<string, nat>, count: nat, proxies: map<nat, ReverseProxy>)
  {
    && (forall i :: i in seen ==> i < |ms|)
    && transports.Keys == KeysOf(ms, seen, keyOf)
    && Numbering(transports, count)
    && ProxiesWith(ms, seen, keyOf, transports, proxies)
  }

  /** The pool `NewProxyMap` builds: transports keyed by the origin key of each target. */
  ghost predicate PoolFor(ms: seq<PathMap>, seen: set<nat>, transports: map<string, nat>, count: nat, proxies: map<nat, ReverseProxy>)
  {
    PoolWith(ms, seen, OriginKey, transports, count, proxies)
  }

  lemma PoolEmpty(ms: seq<PathMap>, keyOf: KeyOf)
    ensures PoolWith(ms, {}, keyOf, map[], 0, map[])
  {
  }

  /** A new key gets the next number. */
  lemma NumberingAdd(transports: map<string, nat>, count: nat, key: string)
    requires Numbering(transports, count) && key !in transports
    ensures Numbering(transports[key := count], count + 1)
  {
    var t := transports[key := count];
    forall n: nat | n < count + 1 ensures n in t.Values {
      if n < count {
        assert n in transports.Values;
        var k :| k in transports && transports[k] == n;
        assert t[k] == n;
      } else {
        assert t[key] == n;
      }
    }
  }

  lemma KeysOfAdd(ms: seq<PathMap>, seen: set<nat>, keyOf: KeyOf, i: nat)
    requires i < |ms|
    ensures KeysOf(ms, seen + {i}, keyOf) == KeysOf(ms, seen, keyOf) + {keyOf(ms[i].target)}
  {
  }

  lemma ProxiesAdd(ms: seq<PathMap>, seen: set<nat>, keyOf: KeyOf, transports: map<string, nat>, t: map<string, nat>, proxies: map<nat, ReverseProxy>, i: nat)
    requires ProxiesWith(ms, seen, keyOf, transports, proxies) && i < |ms|
    requires forall key :: key in transports ==> key in t && t[key] == transports[key]
    requires keyOf(ms[i].target) in t
    ensures ProxiesWith(ms, seen + {i}, keyOf, t, proxies[i := ReverseProxy(t[keyOf(ms[i].target)], ms[i].target)])
  {
  }

  /** A mapping whose key already has a transport gets a proxy on it. */
  lemma PoolStepKnown(ms: seq<PathMap>, seen: set<nat>, keyOf: KeyOf, transports: map<string, nat>, count: nat, proxies: map<nat, ReverseProxy>, i: nat)
    requires PoolWith(ms, seen, keyOf, transports, count, proxies) && i < |ms|
    requires keyOf(ms[i].target) in transports
    ensures PoolWith(ms, seen + {i}, keyOf, transports, count, proxies[i := ReverseProxy(transports[keyOf(ms[i].target)], ms[i].target)])
  {
    KeysOfAdd(ms, seen, keyOf, i);
    ProxiesAdd(ms, seen, keyOf, transports, transports, proxies, i);
  }

  /** A mapping whose key has no transport yet gets a new one, numbered next, and a proxy on it. */
  lemma PoolStepNew(ms: seq<PathMap>, seen: set<nat>, keyOf: KeyOf, transports: map<string, nat>, count: nat, proxies: map<nat, ReverseProxy>, i: nat)
    requires PoolWith(ms, seen, keyOf, transports, count, proxies) && i < |ms|
    requires keyOf(ms[i].target) !in transports
    ensures var t := transports[keyOf(ms[i].target) := count];
      PoolWith(ms, seen + {i}, keyOf, t, count + 1, proxies[i := ReverseProxy(count, ms[i].target)])
  {
    var t := transports[keyOf(ms[i].target) := count];
    KeysOfAdd(ms, seen, keyOf, i);
    NumberingAdd(transports, count, keyOf(ms[i].target));
    ProxiesAdd(ms, seen, keyOf, transports, t, proxies, i);
  }

  /** The transport pool and the proxies as the pool loop builds them. */
  datatype Pool = Pool(transports: map<string, nat>, count: nat, proxies: map<nat, ReverseProxy>)

  /** One turn of the pool loop, for the mapping at position `i`: the transport of its key, made and numbered next on first use, and a proxy on it. */
  function PoolTurn(ms: seq<PathMap>, keyOf: KeyOf, pool: Pool, i: nat): Pool
    requires i < |ms|
  {
    var key := keyOf(ms[i].target);
    if key in pool.transports then
      Pool(pool.transports, pool.count, pool.proxies[i := ReverseProxy(pool.transports[key], ms[i].target)])
    else
      Pool(pool.transports[key := pool.count], pool.count + 1, pool.proxies[i := ReverseProxy(pool.count, ms[i].target)])
  }

  /** The pool loop run over the mappings at the positions in `order`, one turn each, from an empty pool. */
  function PoolFold(ms: seq<PathMap>, keyOf: KeyOf, order: seq<nat>): Pool
    requires forall k :: k in Visited(order) ==> k < |ms|
  {
    if |order| == 0 then Pool(map[], 0, map[])
    else
      var init := order[..|order| - 1];
      assert Visited(order) == Visited(init) + {order[|order| - 1]};
      PoolTurn(ms, keyOf, PoolFold(ms, keyOf, init), order[|order| - 1])
  }

  /** The positions the pool loop has visited after the turns in `order`. */
  function Visited(order: seq<nat>): (r: set<nat>)
  {
    if |order| == 0 then {} else Visited(order[..|order| - 1]) + {order[|order| - 1]}
  }

  /** The values the table gives the paths in `done`. */
  function ValuesOf(table: map<string, nat>, done: set<string>): set<nat>
  {
    set p | p in done && p in table :: table[p]
  }

  /** Visiting one more path adds its value. */
  lemma ValuesOfAdd(table: map<string, nat>, done: set<string>, path: string)
    requires path in table
    ensures ValuesOf(table, done + {path}) == ValuesOf(table, done) + {table[path]}
  {
  }

  /** The values of all paths are the table's values. */
  lemma ValuesOfAll(table: map<string, nat>)
    ensures ValuesOf(table, table.Keys) == table.Values
  {
  }

  /** A turn of the pool loop for `path` extends the order of turns by its mapping, and the visited positions by its value. */
  lemma PoolLoopStep(ms: seq<PathMap>, table: map<string, nat>, todo: set<string>, order: seq<nat>, path: string)
    requires path in todo && todo <= table.Keys
    requires forall p :: p in table ==> table[p] < |ms|
    requires forall k :: k in Visited(order) ==> k < |ms|
    requires Visited(order) == ValuesOf(table, table.Keys - todo)
    ensures var next := order + [table[path]];
      && (forall k :: k in Visited(next) ==> k < |ms|)
      && Visited(next) == ValuesOf(table, table.Keys - (todo - {path}))
      && PoolFold(ms, OriginKey, next) == PoolTurn(ms, OriginKey, PoolFold(ms, OriginKey, order), table[path])
  {
    var next := order + [table[path]];
    assert next[..|order|] == order;
    assert Visited(next) == Visited(order) + {table[path]};
    ValuesOfAdd(table, table.Keys - todo, path);
    assert table.Keys - (todo - {path}) == (table.Keys - todo) + {path};
  }

  /** When the pool loop has visited every path, it has built the pool for the table's values. */
  lemma PoolLoopDone(ms: seq<PathMap>, table: map<string, nat>, order: seq<nat>)
    requires forall k :: k in Visited(order) ==> k < |ms|
    requires Visited(order) == ValuesOf(table, table.Keys - {})
    ensures var p := PoolFold(ms, OriginKey, order);
      PoolFor(ms, table.Values, p.transports, p.count, p.proxies)
  {
    assert table.Keys - {} == table.Keys;
    ValuesOfAll(table);
    PoolFoldValid(ms, OriginKey, order);
  }

  /** Whatever the order of the turns, the pool loop builds a pool in order for the mappings it visited. */
  lemma {:induction false} PoolFoldValid(ms: seq<PathMap>, keyOf: KeyOf, order: seq<nat>)
    requires forall k :: k in Visited(order) ==> k < |ms|
    ensures var p := PoolFold(ms, keyOf, order);
      PoolWith(ms, Visited(order), keyOf, p.transports, p.count, p.proxies)
  {
    if |order| == 0 {
      PoolEmpty(ms, keyOf);
    } else {
      var init := order[..|order| - 1];
      assert Visited(order) == Visited(init) + {order[|order| - 1]};
      PoolFoldValid(ms, keyOf, init);
      PoolTurnValid(ms, Visited(init), keyOf, PoolFold(ms, keyOf, init), order[|order| - 1]);
    }
  }

  /** One turn of the pool loop keeps the pool in order. */
  lemma PoolTurnValid(ms: seq<PathMap>, seen: set<nat>, keyOf: KeyOf, p: Pool, i: nat)
    requires PoolWith(ms, seen, keyOf, p.transports, p.count, p.proxies) && i < |ms|
    ensures var q := PoolTurn(ms, keyOf, p, i);
      PoolWith(ms, seen + {i}, keyOf, q.transports, q.count, q.proxies)
  {
    if keyOf(ms[i].target) in p.transports {
      PoolStepKnown(ms, seen, keyOf, p.transports, p.count, p.proxies, i);
    } else {
      PoolStepNew(ms, seen, keyOf, p.transports, p.count, p.proxies, i);
    }
  }

  /**
    Two accepted mappings share a transport exactly when their targets
    have the same scheme, userinfo and host.
   */
  lemma SharedTransport(ms: seq<PathMap>, seen: set<nat>, transports: map<string, nat>, count: nat, proxies: map<nat, ReverseProxy>, i: nat, j: nat)
    requires PoolFor(ms, seen, transports, count, proxies)
    requires i in seen && j in seen && Accepted(ms[i]) && Accepted(ms[j])
    ensures proxies[i].transport == proxies[j].transport <==> Origin(ms[i].target) == Origin(ms[j].target)
  {
    AcceptedOrigin(ms[i]);
    AcceptedOrigin(ms[j]);
    OriginKeyInjective(ms[i].target, ms[j].target);
  }

  /** The mux after the handle loop: each path of the table has the handler `handle` registers for it. */
  function MuxFor(paths: map<string, nat>): map<string, Handler>
  {
    map path | path in paths :: HandlerFor(path, paths[path])
  }

  /** Every entry of the table after the alias pass points where some original entry points. */
  lemma AliasedValues(t: map<string, nat>)
    ensures forall k :: k in Aliased(t) ==> Aliased(t)[k] in t.Values
  {
    AliasedAdds(t);
  }

  /**
    What the handle loop registers: under every path of the table after
    the alias pass, the mapping whose path is that path or that path less
    its trailing slash, registered bare under "/" only, and otherwise
    behind a strip of the mapping's path without its trailing slash.
   */
  lemma MuxHandlers(ms: seq<PathMap>)
    ensures var mux := MuxFor(Aliased(PathIndex(ms)));
      forall k :: k in mux ==>
        && mux[k].mapping < |ms|
        && (ms[mux[k].mapping].path == k || ms[mux[k].mapping].path + "/" == k)
        && (mux[k].strip.None? <==> k == "/")
        && (k != "/" ==> mux[k].strip == Some(TrimSuffix(ms[mux[k].mapping].path, "/")))
  {
    var t := PathIndex(ms);
    var mux := MuxFor(Aliased(t));
    AliasedAdds(t);
    AliasedKeeps(t);
    forall k | k in mux
      ensures mux[k].mapping < |ms|
      ensures ms[mux[k].mapping].path == k || ms[mux[k].mapping].path + "/" == k
      ensures k != "/" ==> mux[k].strip == Some(TrimSuffix(ms[mux[k].mapping].path, "/"))
    {
      if k !in t {
        var b := k[..|k| - 1];
        assert TrimSuffix(k, "/") == b;
      }
    }
  }

  /**
    A request the mux hands to the handler registered under `k`: it is
    forwarded, toward the target of the mapping `k` belongs to, exactly
    when its path starts with that mapping's path less its trailing slash
    (always under "/"), and the join sees the rest of the path.
   */
  lemma MuxRoute(ms: seq<PathMap>, k: string, r: Request)
    requires k in MuxFor(Aliased(PathIndex(ms)))
    requires forall i :: 0 <= i < |ms| ==> IsPlainPath(ms[i].target.path)
    ensures var h := MuxFor(Aliased(PathIndex(ms)))[k];
      var m := ms[h.mapping];
      var prefix := if k == "/" then "" else TrimSuffix(m.path, "/");
      var out := Dispatch(h, m, r);
      && (out.Some? <==> HasPrefix(r.path, prefix))
      && (out.Some? ==>
            && out.value.url.path == Paths.JoinUrlPath(m.target.path, r.path[|prefix|..])
            && Origin(out.value.url) == Origin(m.target)
            && out.value.url.rawQuery == r.rawQuery)
  {
    MuxHandlers(ms);
    var h := MuxFor(Aliased(PathIndex(ms)))[k];
    DispatchRoute(k, h.mapping, ms[h.mapping], r);
  }

  /** The state `NewProxyMap` builds. */
  class ProxyMap {
    /** The mappings the table was built from; a table value is a position in it. */
    const maps: seq<PathMap>
    var paths: map<string, nat>
    var transports: map<string, nat>
    var transportCount: nat
    var proxies: map<nat, ReverseProxy>
    var mux: map<string, Handler>

    /** Every path, handler and proxy refers to one of the mappings. */
    ghost predicate Valid()
      reads this
    {
      && (forall p :: p in paths ==> paths[p] < |maps|)
      && (forall p :: p in mux ==> mux[p].mapping < |maps|)
      && (forall i :: i in proxies ==> i < |maps|)
    }

    /** The empty tables `NewProxyMap` starts from. */
    constructor(ms: seq<PathMap>)
      ensures maps == ms && paths == map[] && transports == map[] && transportCount == 0
      ensures proxies == map[] && mux == map[]
      ensures Valid()
    {
      maps := ms;
      paths := map[];
      transports := map[];
      transportCount := 0;
      proxies := map[];
      mux := map[];
    }

    /** The fill loop: each mapping stored under its path, a later one replacing an earlier. */
    method Fill()
      modifies this
      requires Valid() && paths == map[]
      ensures Valid() && paths == PathIndex(maps)
      ensures transports == old(transports) && transportCount == old(transportCount)
      ensures proxies == old(proxies) && mux == old(mux)
    {
      var i := 0;
      while i < |maps|
        invariant 0 <= i <= |maps|
        invariant paths == PathIndex(maps[..i])
        invariant transports == old(transports) && transportCount == old(transportCount)
        invariant proxies == old(proxies) && mux == old(mux)
      {
        PathIndexStep(maps, i);
        paths := paths[maps[i].path := i];
        i := i + 1;
      }
      assert maps[..i] == maps;
    }

    /** One turn of the alias loop: the alias of `path` when it has no trailing slash, unless that is already a key. */
    method AddAlias(path: string)
      modifies this
      requires Valid()
      ensures Valid() && paths == AliasStep(old(paths), path)
      ensures transports == old(transports) && transportCount == old(transportCount)
      ensures proxies == old(proxies) && mux == old(mux)
    {
      if !HasSuffix(path, "/") {
        var pathSlash := path + "/";
        if path in paths && pathSlash !in paths {
          paths := paths[pathSlash := paths[path]];
        }
      }
    }

    /** The alias loop: for each key without a trailing slash, its alias, unless that is already a key. */
    method AddAliases()
      modifies this
      requires Valid()
      ensures Valid() && paths == Aliased(old(paths))
      ensures transports == old(transports) && transportCount == old(transportCount)
      ensures proxies == old(proxies) && mux == old(mux)
    {
      ghost var t := paths;
      var todo := paths.Keys;
      ghost var done: set<string> := {};
      assert AliasKeys(t, {}) == {};
      while todo != {}
        invariant todo <= t.Keys && done == t.Keys - todo
        invariant paths == AliasesFor(t, done)
        invariant Valid()
        invariant transports == old(transports) && transportCount == old(transportCount)
        invariant proxies == old(proxies) && mux == old(mux)
        decreases |todo|
      {
        var path :| path in todo;
        ghost var cur := paths;
        AddAlias(path);
        AliasLoopStep(t, done, todo, path, cur, paths);
        todo := todo - {path};
        done := done + {path};
      }
    }

    /** `handle`: register the handler for `path` with the mux; Go's mux panics on a second registration of the same pattern. */
    method Handle(path: string, p: nat)
      modifies this
      requires Valid() && p < |maps| && path !in mux
      ensures Valid() && mux == old(mux)[path := HandlerFor(path, p)]
      ensures paths == old(paths) && transports == old(transports) && transportCount == old(transportCount)
      ensures proxies == old(proxies)
    {
      var h := HandlerFor(path, p);
      mux := mux[path := h];
    }

    /** The handle loop: every path of the table registered once. */
    method HandleAll()
      modifies this
      requires Valid() && mux == map[]
      ensures Valid() && mux == MuxFor(paths)
      ensures paths == old(paths) && transports == old(transports) && transportCount == old(transportCount)
      ensures proxies == old(proxies)
    {
      var todo := paths.Keys;
      while todo != {}
        invariant todo <= paths.Keys
        invariant mux == map path | path in paths.Keys - todo :: HandlerFor(path, paths[path])
        invariant Valid()
        invariant paths == old(paths) && transports == old(transports) && transportCount == old(transportCount)
        invariant proxies == old(proxies)
        decreases |todo|
      {
        var path :| path in todo;
        Handle(path, paths[path]);
        todo := todo - {path};
      }
    }

    /** One turn of the pool loop, for the mapping at position `i`: the transport of its origin, made and numbered next on first use, and a proxy on it. */
    method AddProxy(i: nat)
      modifies this
      requires Valid() && i < |maps|
      ensures Valid()
      ensures Pool(transports, transportCount, proxies) == PoolTurn(maps, OriginKey, old(Pool(transports, transportCount, proxies)), i)
      ensures paths == old(paths) && mux == old(mux)
    {
      var key := OriginKey(maps[i].target);
      var transport;
      if key in transports {
        transport := transports[key];
      } else {
        transport := transportCount;
        transports := transports[key := transport];
        transportCount := transportCount + 1;
      }
      proxies := proxies[i := ReverseProxy(transport, maps[i].target)];
    }

    /** The pool loop: for each mapping in the table, the transport of its origin (made on first use) and a proxy on it. */
    method BuildPool()
      modifies this
      requires Valid() && transports == map[] && transportCount == 0 && proxies == map[]
      ensures Valid()
      ensures PoolFor(maps, paths.Values, transports, transportCount, proxies)
      ensures paths == old(paths) && mux == old(mux)
    {
      var table := paths;
      var todo := table.Keys;
      ghost var order: seq<nat> := [];
      while todo != {}
        invariant todo <= table.Keys
        invariant forall k :: k in Visited(order) ==> k < |maps|
        invariant Visited(order) == ValuesOf(table, table.Keys - todo)
        invariant Pool(transports, transportCount, proxies) == PoolFold(maps, OriginKey, order)
        invariant paths == table && mux == old(mux)
        invariant Valid()
        decreases |todo|
      {
        var path :| path in todo;
        var i := table[path];
        AddProxy(i);
        PoolLoopStep(maps, table, todo, order, path);
        order := order + [i];
        todo := todo - {path};
      }
      PoolLoopDone(maps, table, order);
    }
  }

  /**
    `NewProxyMap`: the path table with its aliases, a handler registered
    under every path of it, and a proxy for every mapping in it, on the
    transport pooled under its origin.
   */
  method NewProxyMap(ms: seq<PathMap>) returns (pm: ProxyMap)
    ensures fresh(pm) && pm.maps == ms && pm.Valid()
    ensures pm.paths == Aliased(PathIndex(ms))
    ensures pm.mux == MuxFor(pm.paths)
    ensures PoolFor(ms, pm.paths.Values, pm.transports, pm.transportCount, pm.proxies)
  {
    pm := new ProxyMap(ms);
    pm.Fill();
    pm.AddAliases();
    AliasedValues(PathIndex(ms));
    pm.HandleAll();
    pm.BuildPool();
  }
}
