/** Bucket objects by allocation: the map finds the live ones, others may still be held. */
module BucketHeap {
  import opened Machine
  import S = BucketStore

  datatype Heap = Heap(objs: seq<S.BucketState>, index: map<BucketID, nat>, minID: int)

  const EMPTY_HEAP := Heap([], map[], -1)

  predicate IndexOk(h: Heap) {
    forall k :: k in h.index ==> h.index[k] < |h.objs|
  }

  /** The locked section that finds the bucket object or creates it. */
  function With(h: Heap, id: int, cfg: S.Config): (h': Heap)
    requires IndexOk(h)
    ensures IndexOk(h') && id in h'.index
  {
    if id in h.index then h else
      var minID := if h.minID < 0 || id < h.minID then id else h.minID;
      Heap(h.objs + [S.NewBucket(id, cfg)], h.index[id := |h.objs|], minID)
  }

  /** A write to one object, whether the map still finds it or not. */
  function Write(h: Heap, o: nat, b: S.BucketState): (h': Heap)
    requires o < |h.objs|
    ensures IndexOk(h) ==> IndexOk(h')
  {
    h.(objs := h.objs[o := b])
  }

  /** The locked section that removes a bucket from the map. */
  ghost function Remove(h: Heap, id: int): (h': Heap)
    ensures IndexOk(h) ==> IndexOk(h')
  {
    var rest := h.index - {id};
    Heap(h.objs, rest, if id == h.minID then S.Least(rest.Keys) else h.minID)
  }

  function Oldest(h: Heap): Option<nat> {
    if h.minID in h.index then Some(h.index[h.minID]) else None
  }

  /** The store as the map of live objects shows it. */
  function View(h: Heap): S.Store
    requires IndexOk(h)
  {
    S.Store(map k: BucketID | k in h.index :: h.objs[h.index[k]], h.minID)
  }

  /** Live objects carry the identifier they are found under. */
  predicate IdsOk(h: Heap)
    requires IndexOk(h)
  {
    forall k :: k in h.index ==> h.objs[h.index[k]].id == k
  }

  lemma ViewWith(h: Heap, id: int, cfg: S.Config)
    requires IndexOk(h)
    ensures View(With(h, id, cfg)) == S.WithBucket(View(h), id, cfg)
  {
    var m, m' := View(With(h, id, cfg)).buckets, S.WithBucket(View(h), id, cfg).buckets;
    assert m.Keys == m'.Keys;
    forall k: BucketID | k in m ensures k in m' && m[k] == m'[k] {}
    assert m == m';
  }

  /** Writing the live object of a bucket is writing that bucket. */
  lemma ViewWrite(h: Heap, id: int, b: S.BucketState)
    requires IndexOk(h) && IdsOk(h) && id in h.index
    ensures View(Write(h, h.index[id], b)) == S.SetBucket(View(h), id, b)
  {
    var m, m' := View(Write(h, h.index[id], b)).buckets, S.SetBucket(View(h), id, b).buckets;
    assert m.Keys == m'.Keys;
    forall k: BucketID | k in m ensures k in m' && m[k] == m'[k] {}
    assert m == m';
  }

  lemma ViewRemove(h: Heap, id: int)
    requires IndexOk(h)
    ensures View(Remove(h, id)) == S.Remove(View(h), id)
  {
    var m, m' := View(Remove(h, id)).buckets, S.Remove(View(h), id).buckets;
    assert m.Keys == m'.Keys == h.index.Keys - {id};
    forall k: BucketID | k in m ensures k in m' && m[k] == m'[k] {}
    assert m == m';
    assert (h.index - {id}).Keys == h.index.Keys - {id};
  }
}
