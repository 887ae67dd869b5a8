/**
 * An in-memory stand-in for the document store the importer writes to: a
 * log of committed batches, a key source for `colRef.doc()` with no
 * argument, and write batches that stage `set` operations until committed.
 */
module Firestore {
  import opened JsonValues
  import opened DocumentKeys
  import opened Batching

  /** No generated key occurs twice in the writes, and each is below the next one the key source hands out. */
  predicate KeysFresh(log: seq<seq<Write>>, nextAuto: nat)
  {
    var ws := Flatten(log);
    GeneratedDistinct(ws) && GeneratedWithin(ws, 0, nextAuto)
  }

  /** Two runs of writes with distinct generated keys, the first's below `mid` and the second's at or above it, have distinct generated keys together. */
  lemma DistinctConcat(xs: seq<Write>, ys: seq<Write>, mid: nat, hi: nat)
    requires GeneratedDistinct(xs) && GeneratedWithin(xs, 0, mid)
    requires GeneratedDistinct(ys) && GeneratedWithin(ys, mid, hi)
    ensures GeneratedDistinct(xs + ys)
  {
    var all := xs + ys;
    forall i, j | 0 <= i < j < |all| && all[i].key.Generated? && all[j].key.Generated?
      ensures all[i].key.id != all[j].key.id
    {
      if j < |xs| {
        assert all[i] == xs[i] && all[j] == xs[j];
      } else if i < |xs| {
        assert all[i] == xs[i] && all[j] == ys[j - |xs|];
      } else {
        assert all[i] == ys[i - |xs|] && all[j] == ys[j - |xs|];
      }
    }
  }

  /** Generated keys below `hi` in both runs are below `hi` in their concatenation. */
  lemma WithinConcat(xs: seq<Write>, ys: seq<Write>, lo: nat, mid: nat, hi: nat)
    requires GeneratedWithin(xs, lo, mid) && GeneratedWithin(ys, mid, hi) && lo <= mid <= hi
    ensures GeneratedWithin(xs + ys, lo, hi)
  {
    var all := xs + ys;
    forall i | 0 <= i < |all| && all[i].key.Generated?
      ensures lo <= all[i].key.id < hi
    {
      if i < |xs| {
        assert all[i] == xs[i];
      } else {
        assert all[i] == ys[i - |xs|];
      }
    }
  }

  /** Appending the batches of writes whose generated keys are new keeps every generated key unique. */
  lemma FreshAfterAppend(log: seq<seq<Write>>, nextAuto: nat, ws: seq<Write>, used: nat)
    requires KeysFresh(log, nextAuto)
    requires GeneratedDistinct(ws) && GeneratedWithin(ws, nextAuto, nextAuto + used)
    ensures KeysFresh(log + Chunks(ws), nextAuto + used)
  {
    FlattenAppend(log, Chunks(ws));
    FlattenChunks(ws);
    assert Flatten(log + Chunks(ws)) == Flatten(log) + ws;
    DistinctConcat(Flatten(log), ws, nextAuto, nextAuto + used);
    WithinConcat(Flatten(log), ws, 0, nextAuto, nextAuto + used);
  }

  class Store {
    /** Every committed batch, oldest first. */
    var log: seq<seq<Write>>
    /** The key source: the next generated key. */
    var nextAuto: nat

    ghost predicate Valid()
      reads this
    {
      KeysFresh(log, nextAuto)
    }

    constructor ()
      ensures Valid() && log == [] && nextAuto == 0
    {
      log := [];
      nextAuto := 0;
    }

    /** `colRef.doc()`: the key source's next key; in a valid store, one no committed write carries. */
    method NewDocumentKey() returns (k: Key)
      modifies this
      ensures k == Generated(old(nextAuto)) && nextAuto == old(nextAuto) + 1
      ensures log == old(log)
      ensures old(Valid()) ==> Valid() && GeneratedWithin(Flatten(log), 0, k.id)
    {
      k := Generated(nextAuto);
      nextAuto := nextAuto + 1;
    }

    /** `db.batch()`: an empty batch bound to this store. */
    method NewBatch() returns (b: WriteBatch)
      ensures fresh(b) && b.db == this && b.ops == []
    {
      b := new WriteBatch(this);
    }
  }

  class WriteBatch {
    const db: Store
    /** The staged `set` operations, in the order they were made. */
    var ops: seq<Write>

    constructor (db: Store)
      ensures this.db == db && ops == []
    {
      this.db := db;
      ops := [];
    }

    /** `batch.set(docRef, item)`. */
    method Set(w: Write)
      modifies this
      ensures ops == old(ops) + [w]
    {
      ops := ops + [w];
    }

    /** `batch.commit()`: the staged writes land in the store as one batch. */
    method Commit()
      modifies db
      ensures db.log == old(db.log) + [ops]
      ensures db.nextAuto == old(db.nextAuto)
    {
      db.log := db.log + [ops];
    }
  }
}
