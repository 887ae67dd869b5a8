/**
 * What the upload loop of `uploadFile` produces, as pure functions: the key
 * of each record (with generated keys drawn in order from a counter) and the
 * split of the writes into batches of at most 499.
 */
module Batching {
  import opened JsonValues
  import opened DocumentKeys

  /** Writes per batch: one under the store's limit of 500. */
  const BatchLimit: nat := 499

  /** `batch.set(docRef, item)` in collection `collection`. */
  datatype Write = Write(collection: string, key: Key, doc: Record)

  predicate NeedsGeneratedKey(r: Record)
  {
    ChooseKey(r).AutoId?
  }

  /** How many records have neither a truthy `id` nor a truthy `email`. */
  function AutoCount(rs: seq<Record>): (n: nat)
    ensures n <= |rs|
  {
    if rs == [] then 0
    else AutoCount(rs[..|rs| - 1]) + (if NeedsGeneratedKey(rs[|rs| - 1]) then 1 else 0)
  }

  /** The key of a record when the next generated key would be `next`. */
  function KeyFor(r: Record, next: nat): Key
  {
    match ChooseKey(r)
    case UseField(v) => Given(v)
    case AutoId => Generated(next)
  }

  predicate GeneratedWithin(ws: seq<Write>, lo: nat, hi: nat)
  {
    forall i | 0 <= i < |ws| && ws[i].key.Generated? :: lo <= ws[i].key.id < hi
  }

  predicate GeneratedDistinct(ws: seq<Write>)
  {
    forall i, j | 0 <= i < j < |ws| && ws[i].key.Generated? && ws[j].key.Generated? ::
      ws[i].key.id != ws[j].key.id
  }

  /**
   * The writes for `rs` in `collection`, in record order, generated keys
   * taken from `next` on.
   */
  function Assign(collection: string, rs: seq<Record>, next: nat): (ws: seq<Write>)
    ensures |ws| == |rs|
  {
    if rs == [] then []
    else
      var init := rs[..|rs| - 1];
      var last := rs[|rs| - 1];
      Assign(collection, init, next) + [Write(collection, KeyFor(last, next + AutoCount(init)), last)]
  }

  /**
   * Every record is written once, in order, to the collection, under the
   * field the priority rule picks or else under a generated key; generated
   * keys are pairwise distinct and lie in [next, next + AutoCount(rs)).
   */
  lemma {:induction false} AssignWrites(collection: string, rs: seq<Record>, next: nat)
    ensures var ws := Assign(collection, rs, next);
            && (forall i | 0 <= i < |rs| :: ws[i].collection == collection && ws[i].doc == rs[i])
            && (forall i | 0 <= i < |rs| ::
                  match ChooseKey(rs[i])
                  case UseField(v) => ws[i].key == Given(v)
                  case AutoId => ws[i].key.Generated?)
            && GeneratedWithin(ws, next, next + AutoCount(rs))
            && GeneratedDistinct(ws)
  {
    if rs != [] {
      var init := rs[..|rs| - 1];
      AssignWrites(collection, init, next);
      var ws := Assign(collection, rs, next);
      var prev := Assign(collection, init, next);
      assert ws == prev + [Write(collection, KeyFor(rs[|rs| - 1], next + AutoCount(init)), rs[|rs| - 1])];
      assert forall i | 0 <= i < |init| :: ws[i] == prev[i] && rs[i] == init[i];
    }
  }

  /** The write for record `i` depends only on the records before it. */
  lemma {:induction false} AssignAt(collection: string, rs: seq<Record>, next: nat, i: nat)
    requires i < |rs|
    ensures Assign(collection, rs, next)[i] == Write(collection, KeyFor(rs[i], next + AutoCount(rs[..i])), rs[i])
    decreases |rs|
  {
    var init := rs[..|rs| - 1];
    if i < |rs| - 1 {
      AssignAt(collection, init, next, i);
      assert init[..i] == rs[..i];
    } else {
      assert init == rs[..i];
    }
  }

  /** One more record adds its own generated key, if it needs one. */
  lemma AutoCountStep(rs: seq<Record>, i: nat)
    requires i < |rs|
    ensures AutoCount(rs[..i + 1]) == AutoCount(rs[..i]) + (if NeedsGeneratedKey(rs[i]) then 1 else 0)
  {
    assert rs[..i + 1][..i] == rs[..i];
  }

  /** The batches: consecutive runs of `BatchLimit` elements, the last one shorter. */
  function Chunks<T>(s: seq<T>): (cs: seq<seq<T>>)
    decreases |s|
  {
    if |s| <= BatchLimit then (if s == [] then [] else [s])
    else [s[..BatchLimit]] + Chunks(s[BatchLimit..])
  }

  /** No batch is empty or larger than 499, and all but the last are full. */
  lemma {:induction false} ChunkSizes<T>(s: seq<T>)
    ensures var cs := Chunks(s);
            && (forall j | 0 <= j < |cs| :: 0 < |cs[j]| <= BatchLimit)
            && (forall j | 0 <= j < |cs| - 1 :: |cs[j]| == BatchLimit)
    decreases |s|
  {
    if |s| > BatchLimit {
      ChunkSizes(s[BatchLimit..]);
      var cs := Chunks(s);
      assert forall j | 1 <= j < |cs| :: cs[j] == Chunks(s[BatchLimit..])[j - 1];
    }
  }

  function Flatten<T>(bs: seq<seq<T>>): seq<T>
  {
    if bs == [] then [] else bs[0] + Flatten(bs[1..])
  }

  lemma {:induction false} FlattenAppend<T>(a: seq<seq<T>>, b: seq<seq<T>>)
    ensures Flatten(a + b) == Flatten(a) + Flatten(b)
  {
    if a != [] {
      assert (a + b)[1..] == a[1..] + b;
      FlattenAppend(a[1..], b);
    } else {
      assert a + b == b;
    }
  }

  /** The batches together hold every write exactly once, in order. */
  lemma {:induction false} FlattenChunks<T>(s: seq<T>)
    ensures Flatten(Chunks(s)) == s
    decreases |s|
  {
    if |s| > BatchLimit {
      FlattenChunks(s[BatchLimit..]);
      assert ([s[..BatchLimit]] + Chunks(s[BatchLimit..]))[1..] == Chunks(s[BatchLimit..]);
      assert s[..BatchLimit] + s[BatchLimit..] == s;
    } else if s != [] {
      assert Flatten([s]) == s + Flatten([]);
    }
  }

  /** The number of commits is the number of writes divided by 499, rounded up. */
  lemma {:induction false} ChunkCount<T>(s: seq<T>)
    ensures |Chunks(s)| == (|s| + BatchLimit - 1) / BatchLimit
    decreases |s|
  {
    if |s| > BatchLimit {
      ChunkCount(s[BatchLimit..]);
    }
  }

  /** Closing `k` full batches with one more non-empty batch of at most 499 writes. */
  lemma {:induction false} ChunksSnoc<T>(s: seq<T>, k: nat, c: seq<T>)
    requires |s| == BatchLimit * k
    requires 0 < |c| <= BatchLimit
    ensures Chunks(s + c) == Chunks(s) + [c]
    decreases k
  {
    if k == 0 {
      assert s + c == c;
    } else {
      var t := s + c;
      assert t[..BatchLimit] == s[..BatchLimit];
      assert t[BatchLimit..] == s[BatchLimit..] + c;
      ChunksSnoc(s[BatchLimit..], k - 1, c);
    }
  }

  lemma SliceSnoc<T>(s: seq<T>, lo: nat, i: nat)
    requires lo <= i < |s|
    ensures s[lo..i] + [s[i]] == s[lo..i + 1]
  {
  }

  /** Committing the open batch `s[lo..hi]` after the `k` full batches of `s[..lo]`. */
  lemma CloseBatch<T>(log: seq<seq<T>>, s: seq<T>, k: nat, lo: nat, hi: nat)
    requires lo == BatchLimit * k && lo < hi <= |s| && hi - lo <= BatchLimit
    ensures log + Chunks(s[..lo]) + [s[lo..hi]] == log + Chunks(s[..hi])
  {
    ChunksSnoc(s[..lo], k, s[lo..hi]);
    assert s[..lo] + s[lo..hi] == s[..hi];
  }

  /** 1000 records go out as three commits of 499, 499 and 2 writes. */
  lemma ThousandRecords<T>(s: seq<T>)
    requires |s| == 1000
    ensures |Chunks(s)| == 3
    ensures |Chunks(s)[0]| == 499 && |Chunks(s)[1]| == 499 && |Chunks(s)[2]| == 2
  {
    var rest := s[BatchLimit..];
    var last := rest[BatchLimit..];
    assert |last| == 2;
    assert Chunks(last) == [last];
    assert Chunks(rest) == [rest[..BatchLimit]] + [last];
    assert Chunks(s) == [s[..BatchLimit], rest[..BatchLimit], last];
  }
}
