/** The per-peer table of statistics objects that servers and scanners look up by address. */
module StatTable {
  import opened Machine
  import opened Buckets
  import S = BucketStore

  type View = map<string, S.Store>

  /** Registering an address twice changes nothing. */
  function WithPeer(v: View, key: string): (v': View)
    ensures key in v'
  {
    if key in v then v else v[key := S.EMPTY_STORE]
  }

  /** The table before any packet: an empty store for each configured peer. */
  function Prepared(keys: seq<string>): (v: View)
    ensures v == map k | k in keys :: S.EMPTY_STORE
  {
    if keys == [] then map[] else WithPeer(Prepared(keys[..|keys| - 1]), keys[|keys| - 1])
  }

  lemma PreparedNext(keys: seq<string>, i: nat)
    requires i < |keys|
    ensures Prepared(keys[..i + 1]) == WithPeer(Prepared(keys[..i]), keys[i])
  {
    assert keys[..i + 1][..i] == keys[..i];
  }

  /** An operation on one peer's store. */
  function OnPeer(v: View, key: string, cfg: S.Config, op: S.Operation): View
    requires key in v
  {
    v[key := S.Apply(v[key], cfg, op)]
  }

  class Table {
    const cfg: S.Config
    var stats: map<string, Buckets>

    ghost function Objects(): set<Bucket>
      reads this, stats.Values
    {
      set k, b | k in stats && b in stats[k].buckets.Values :: b
    }

    /** No two peers share a store or a bucket. */
    ghost predicate Valid()
      reads this, stats.Values
    {
      && (forall k :: k in stats ==> stats[k].Valid() && stats[k].cfg == cfg)
      && (forall j, k :: j in stats && k in stats && j != k ==> stats[j] != stats[k])
      && (forall j, k, b :: j in stats && k in stats && j != k && b in stats[j].buckets.Values ==> b !in stats[k].buckets.Values)
    }

    ghost function State(): View
      reads this, stats.Values, Objects()
    {
      map k | k in stats :: stats[k].State()
    }

    constructor (cfg: S.Config)
      ensures Valid() && State() == map[] && this.cfg == cfg && stats == map[]
    {
      this.cfg := cfg;
      stats := map[];
    }

    /** Looks the peer up, and registers it if it is new. */
    method GetOrCreate(key: string)
      requires Valid()
      modifies this
      ensures Valid() && key in stats
      ensures State() == WithPeer(old(State()), key)
      ensures key in old(stats) ==> stats == old(stats)
      ensures key !in old(stats) ==> stats == old(stats)[key := stats[key]] && fresh(stats[key]) && stats[key].buckets == map[]
      ensures fresh(stats.Values - old(stats.Values))
    {
      if key !in stats {
        Register(key);
      }
    }

    /** Registers the configured peers. */
    method Prepare(keys: seq<string>)
      requires Valid() && stats == map[]
      modifies this
      ensures Valid() && State() == Prepared(keys) && fresh(stats.Values)
    {
      ghost var w: View := map[];
      assert State() == w;
      for i := 0 to |keys|
        invariant Valid() && State() == w && w == Prepared(keys[..i])
        invariant fresh(stats.Values - old(stats.Values))
      {
        PreparedNext(keys, i);
        GetOrCreate(keys[i]);
        w := WithPeer(w, keys[i]);
      }
      assert keys[..|keys|] == keys;
    }

    method Register(key: string)
      requires Valid() && key !in stats
      modifies this
      ensures Valid() && key in stats && State() == old(State())[key := S.EMPTY_STORE]
      ensures stats == old(stats)[key := stats[key]] && fresh(stats[key]) && stats[key].buckets == map[]
    {
      var st := new Buckets(cfg);
      stats := stats[key := st];
      PeerAdded(key);
    }

    /** A peer with an empty new store was added; nothing else was touched. */
    twostate lemma PeerAdded(key: string)
      requires old(Valid()) && key !in old(stats) && key in stats && stats == old(stats)[key := stats[key]]
      requires fresh(stats[key]) && stats[key].buckets == map[] && stats[key].cfg == cfg
      requires stats[key].Valid() && stats[key].State() == S.EMPTY_STORE
      requires forall k :: k in old(stats) ==> unchanged(old(stats)[k]) && unchanged(old(stats)[k].buckets.Values)
      ensures Valid() && State() == old(State())[key := S.EMPTY_STORE]
    {
      assert stats[key].buckets.Values == {};
      forall k | k in old(stats) ensures stats[k].Valid() && stats[k].State() == old(stats[k].State()) && stats[k] != stats[key] {
        assert unchanged(stats[k]) && unchanged(stats[k].buckets.Values);
      }
      assert State().Keys == (old(State())[key := S.EMPTY_STORE]).Keys;
    }

    /** Writing other objects changes nothing here. */
    twostate lemma Untouched()
      requires old(Valid()) && unchanged(this) && unchanged(stats.Values) && unchanged(Objects())
      ensures Valid() && State() == old(State()) && Objects() == old(Objects())
    {
    }

    /** One peer's store was operated on; nothing else was touched. */
    twostate predicate OnlyPeer(key: string)
      requires key in stats
      reads this, stats.Values, Objects()
    {
      && stats == old(stats)
      && stats[key].Kept()
      && forall k :: k in stats && k != key ==> unchanged(stats[k]) && unchanged(stats[k].buckets.Values)
    }

    twostate lemma OnePeerWritten(key: string, new s: S.Store)
      requires old(Valid()) && key in stats && OnlyPeer(key) && stats[key].State() == s
      ensures Valid() && State() == old(State())[key := s] && fresh(Objects() - old(Objects()))
    {
      forall k | k in stats && k != key ensures stats[k].Valid() && stats[k].State() == old(stats[k].State()) {
        assert unchanged(stats[k]) && unchanged(stats[k].buckets.Values);
      }
    }

    /** Every operation of the program on one peer's statistics. */
    method Do(key: string, op: S.Operation)
      requires Valid() && key in stats
      modifies stats[key], stats[key].buckets.Values
      ensures Valid() && stats == old(stats)
      ensures fresh(stats[key].buckets.Values - old(stats[key].buckets.Values)) && fresh(Objects() - old(Objects()))
      ensures State() == OnPeer(old(State()), key, cfg, op)
    {
      var st := stats[key];
      st.Apply(op);
      OnePeerWritten(key, st.State());
    }
  }
}
