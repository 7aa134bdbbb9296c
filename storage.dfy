/**
 * The key-value backend as the two writer passes see it (`db::DB` and
 * `db::Transaction` of caffe/util/db.hpp, not part of this model), and the
 * batching policy they drive it with.
 *
 * A store holds the batches it has committed, in commit order, and the puts
 * buffered in its open transaction. Serialisation of the value and the
 * LMDB/LevelDB engines behind it are abstracted away.
 */
module Storage {

  /** Puts per transaction: the writer passes commit whenever their counter reaches a multiple of this. */
  const BATCH: nat := 1000

  datatype Record<V> = Record(key: string, value: V)

  /** An opened store and its current transaction. */
  class Store<V> {
    /** Transactions committed so far, each the puts it held, in commit order. */
    var batches: seq<seq<Record<V>>>
    /** Puts buffered in the open transaction and not yet committed. */
    var pending: seq<Record<V>>
    /** Whether a transaction handle is open. */
    var txnOpen: bool

    /** `Open(path, db::NEW)`: a new, empty store with no transaction yet. */
    constructor Open()
      ensures batches == [] && pending == [] && !txnOpen
    {
      batches := [];
      pending := [];
      txnOpen := false;
    }

    /** `NewTransaction()`: a fresh transaction with nothing buffered. */
    method NewTransaction()
      requires !txnOpen
      modifies this
      ensures txnOpen && pending == [] && batches == old(batches)
    {
      txnOpen := true;
      pending := [];
    }

    /** `Transaction::Put`: buffers one put; nothing is committed. */
    method Put(key: string, value: V)
      requires txnOpen
      modifies this
      ensures txnOpen && batches == old(batches)
      ensures pending == old(pending) + [Record(key, value)]
    {
      pending := pending + [Record(key, value)];
    }

    /** `Transaction::Commit`: the buffered puts become one committed batch; the transaction is finished. */
    method Commit()
      requires txnOpen
      modifies this
      ensures !txnOpen && pending == []
      ensures batches == old(batches) + [old(pending)]
    {
      batches := batches + [pending];
      pending := [];
      txnOpen := false;
    }
  }

  /** All puts of a list of batches, in order. */
  function Flatten<V>(batches: seq<seq<Record<V>>>): seq<Record<V>>
  {
    if batches == [] then [] else batches[0] + Flatten(batches[1..])
  }

  /**
   * The batches a pass commits for a run of puts: full batches of `BATCH`
   * puts, then the remainder if there is one.
   */
  function Chunks<V>(puts: seq<Record<V>>): seq<seq<Record<V>>>
    decreases |puts|
  {
    if puts == [] then []
    else if |puts| <= BATCH then [puts]
    else [puts[..BATCH]] + Chunks(puts[BATCH..])
  }

  /** Position where the last, possibly partial, batch of `n` puts begins. */
  function FullPrefix(n: nat): (f: nat)
    ensures f <= n && f % BATCH == 0 && n - f < BATCH
  {
    n - n % BATCH
  }

  /** Round trip: the committed batches hold exactly the puts, in order. */
  lemma {:induction false} FlattenChunks<V>(puts: seq<Record<V>>)
    ensures Flatten(Chunks(puts)) == puts
    decreases |puts|
  {
    if |puts| > BATCH {
      FlattenChunks(puts[BATCH..]);
      assert puts == puts[..BATCH] + puts[BATCH..];
    } else if puts != [] {
      assert Chunks(puts)[1..] == [];
    }
  }

  /** Quotient and remainder by `BATCH` are unique. */
  lemma DivMod(n: nat, q: nat, r: nat)
    requires n == BATCH * q + r && r < BATCH
    ensures n / BATCH == q && n % BATCH == r
  {
  }

  /**
   * Batch sizes: no batch is empty or holds more than `BATCH` puts, every
   * batch but the last is full, and there are ceil(n / BATCH) of them.
   */
  lemma {:induction false} ChunkSizes<V>(puts: seq<Record<V>>)
    ensures |Chunks(puts)| == (|puts| + BATCH - 1) / BATCH
    ensures forall k :: 0 <= k < |Chunks(puts)| ==> 1 <= |Chunks(puts)[k]| <= BATCH
    ensures forall k :: 0 <= k < |Chunks(puts)| - 1 ==> |Chunks(puts)[k]| == BATCH
    decreases |puts|
  {
    if puts == [] {
      DivMod(BATCH - 1, 0, BATCH - 1);
    } else if |puts| <= BATCH {
      DivMod(|puts| + BATCH - 1, 1, |puts| - 1);
    } else {
      ChunkSizes(puts[BATCH..]);
      var rest := Chunks(puts[BATCH..]);
      var x := |puts| - 1;
      DivMod(x + BATCH, x / BATCH + 1, x % BATCH);
      assert Chunks(puts) == [puts[..BATCH]] + rest;
      assert forall k :: 1 <= k < |Chunks(puts)| ==> Chunks(puts)[k] == rest[k - 1];
    }
  }

  /** The last batch holds the last `n % BATCH` puts, or the last `BATCH` when that is 0. */
  lemma LastChunk<V>(puts: seq<Record<V>>)
    requires puts != []
    ensures Chunks(puts) != []
    ensures Chunks(puts)[|Chunks(puts)| - 1] ==
      puts[|puts| - (if |puts| % BATCH == 0 then BATCH else |puts| % BATCH)..]
  {
    if |puts| % BATCH == 0 {
      ChunksFull(puts, |puts| / BATCH);
    } else {
      ChunksTail(puts);
    }
  }

  /** Batches of `k` full batches' worth of puts followed by more puts. */
  lemma {:induction false} ChunksAppend<V>(p: seq<Record<V>>, q: seq<Record<V>>, k: nat)
    requires |p| == BATCH * k
    ensures Chunks(p + q) == Chunks(p) + Chunks(q)
  {
    if k == 0 {
      assert p + q == q;
    } else if q == [] {
      assert p + q == p;
    } else {
      var p' := p[BATCH..];
      assert (p + q)[..BATCH] == p[..BATCH];
      assert (p + q)[BATCH..] == p' + q;
      ChunksAppend(p', q, k - 1);
      if k == 1 {
        assert p' == [] && p[..BATCH] == p;
        assert p' + q == q;
      }
    }
  }

  /** A run of `k` full batches: its last batch comes after the first `k - 1`. */
  lemma ChunksFull<V>(puts: seq<Record<V>>, k: nat)
    requires 1 <= k && |puts| == BATCH * k
    ensures Chunks(puts) == Chunks(puts[..|puts| - BATCH]) + [puts[|puts| - BATCH..]]
  {
    var n := |puts| - BATCH;
    ChunksAppend(puts[..n], puts[n..], k - 1);
    assert puts[..n] + puts[n..] == puts;
    assert Chunks(puts[n..]) == [puts[n..]];
  }

  /** A final partial batch completes the committed batches of a run. */
  lemma ChunksTail<V>(puts: seq<Record<V>>)
    requires |puts| % BATCH != 0
    ensures Chunks(puts) == Chunks(puts[..FullPrefix(|puts|)]) + [puts[FullPrefix(|puts|)..]]
  {
    var f := FullPrefix(|puts|);
    assert f == BATCH * (|puts| / BATCH);
    ChunksAppend(puts[..f], puts[f..], |puts| / BATCH);
    assert puts[..f] + puts[f..] == puts;
    assert Chunks(puts[f..]) == [puts[f..]];
  }

  /**
   * The state of a store in the middle of a pass that has put `written`
   * after the batches `base`: full batches committed, the remainder buffered
   * in the open transaction.
   */
  ghost predicate Batched<V>(db: Store<V>, base: seq<seq<Record<V>>>, written: seq<Record<V>>)
    reads db
  {
    && db.txnOpen
    && db.batches == base + Chunks(written[..FullPrefix(|written|)])
    && db.pending == written[FullPrefix(|written|)..]
  }

  /** One put more either stays in the current batch or completes it. */
  lemma FullPrefixStep(n: nat)
    ensures (n + 1) % BATCH != 0 ==> FullPrefix(n + 1) == FullPrefix(n)
    ensures (n + 1) % BATCH == 0 ==> FullPrefix(n + 1) == n + 1 && FullPrefix(n) == n + 1 - BATCH
  {
    var q, r := n / BATCH, n % BATCH;
    if r + 1 == BATCH {
      DivMod(n + 1, q + 1, 0);
    } else {
      DivMod(n + 1, q, r + 1);
    }
  }

  /**
   * `txn->Put(key, value)` followed by `if (++count % 1000 == 0) { txn->Commit();
   * txn.reset(db->NewTransaction()); }`: the counter counts the puts, and a
   * commit happens exactly when it reaches a multiple of `BATCH`.
   */
  method PutCounted<V>(db: Store<V>, key: string, value: V, count: nat,
                       ghost base: seq<seq<Record<V>>>, ghost written: seq<Record<V>>)
    returns (count': nat)
    requires count == |written| && Batched(db, base, written)
    modifies db
    ensures count' == count + 1
    ensures Batched(db, base, written + [Record(key, value)])
    ensures |db.batches| == |old(db.batches)| + (if count' % BATCH == 0 then 1 else 0)
  {
    db.Put(key, value);
    ghost var w := written + [Record(key, value)];
    FullPrefixStep(count);
    count' := count + 1;
    assert w[..FullPrefix(count)] == written[..FullPrefix(count)];
    if count' % BATCH == 0 {
      ChunksFull(w, count' / BATCH);
      assert w[..count' - BATCH] == written[..count' - BATCH];
      assert w[..FullPrefix(count')] == w;
      assert w[count' - BATCH..] == written[count' - BATCH..] + [Record(key, value)];
      db.Commit();
      db.NewTransaction();
    } else {
      assert FullPrefix(count') == FullPrefix(count);
    }
  }

  /** `if (count % 1000 != 0) txn->Commit();`: the last, partial batch is committed; a full one already was. */
  method FinishBatches<V>(db: Store<V>, count: nat, ghost base: seq<seq<Record<V>>>, ghost written: seq<Record<V>>)
    requires count == |written| && Batched(db, base, written)
    modifies db
    ensures db.batches == base + Chunks(written)
    ensures db.pending == []
    ensures db.txnOpen <==> count % BATCH == 0
  {
    if count % BATCH != 0 {
      ChunksTail(written);
      db.Commit();
    } else {
      assert written[..FullPrefix(count)] == written;
    }
  }
}
