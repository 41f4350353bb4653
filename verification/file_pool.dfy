/** The pool of numbered, pre-created files: a worker creates them ahead of use and
    `acquire` hands them out oldest first. One method for each critical section. */
module FilePooling {
  import opened Wrappers
  import opened Bytes
  import opened Machine

  class FilePool {
    const poolSize: nat
    var pool: seq<nat>
    var nextId: nat
    var shutdown: bool
    var worker: Worker           // the worker's local state between its two critical sections
    ghost var acquired: seq<nat> // everything handed out so far

    /** Numbers are handed out, pooled and created in one strictly increasing sequence. */
    function InCreation(): seq<nat>
      reads this
    {
      if worker.Creating? then [worker.file] else []
    }

    ghost predicate Valid()
      reads this
    {
      var all := acquired + pool + InCreation();
      && Ascending(all)
      && (forall i | 0 <= i < |all| :: all[i] < nextId)
      && |pool| + |InCreation()| <= poolSize
    }

    constructor (poolSize: nat, startId: nat)
      ensures Valid() && pool == [] && nextId == startId && worker == Waiting && !shutdown
      ensures this.poolSize == poolSize && acquired == []
    {
      this.poolSize := poolSize;
      pool, nextId, worker, shutdown, acquired := [], startId, Waiting, false, [];
    }

    /** After the wait: a file, or the exception thrown at shutdown. */
    method Acquire() returns (file: Option<nat>)
      requires Valid() && (pool != [] || shutdown)
      modifies this
      ensures Valid() && nextId == old(nextId) && worker == old(worker) && shutdown == old(shutdown)
      ensures file == if old(pool) == [] then None else Some(old(pool)[0])
      ensures pool == if old(pool) == [] then [] else old(pool)[1..]
      ensures acquired == if old(pool) == [] then old(acquired) else old(acquired) + [old(pool)[0]]
    {
      if shutdown && |pool| == 0 {
        return None;
      }
      file := Some(pool[0]);
      assert acquired + pool + InCreation() == (acquired + [pool[0]]) + pool[1..] + InCreation();
      acquired := acquired + [pool[0]];
      pool := pool[1..];
    }

    /** The worker's first critical section, and the atomic increment that follows it;
        says whether the worker goes on. */
    method BeginReplenish() returns (needed: bool)
      requires Valid() && worker == Waiting && (|pool| < poolSize || shutdown)
      modifies this
      ensures Valid() && pool == old(pool) && acquired == old(acquired) && shutdown == old(shutdown)
      ensures needed <==> !shutdown
      ensures worker == if needed then Creating(old(nextId)) else Waiting
      ensures nextId == if needed then old(nextId) + 1 else old(nextId)
    {
      needed := !shutdown;
      if needed {
        ghost var before := acquired + pool + InCreation();
        assert acquired + pool + [nextId] == before + [nextId];
        worker := Creating(nextId);
        nextId := nextId + 1;
      }
    }

    /** The second critical section: the file joins the pool, or is closed at shutdown. */
    method FinishReplenish()
      requires Valid() && worker.Creating?
      modifies this
      ensures Valid() && nextId == old(nextId) && acquired == old(acquired) && shutdown == old(shutdown)
      ensures worker == Waiting
      ensures pool == if shutdown then old(pool) else old(pool) + [old(worker).file]
    {
      assert acquired + pool + InCreation() == acquired + (pool + [worker.file]) + [];
      assert (acquired + pool + InCreation())[..|acquired + pool|] == acquired + pool + [];
      if !shutdown {
        pool := pool + [worker.file];
      }
      worker := Waiting;
    }

    method Shutdown()
      requires Valid()
      modifies this
      ensures Valid() && shutdown && pool == old(pool) && nextId == old(nextId)
      ensures worker == old(worker) && acquired == old(acquired)
    {
      shutdown := true;
    }
  }
}
