/**
 * Threadpool<T>: the shared request queue, its semaphore and stop flag as
 * fields updated in place. Each method is proved to do what the matching
 * function of module RequestQueue describes.
 */
module WorkerPool {
  import opened Wrappers
  import opened RequestQueue

  const DEFAULT_THREAD_NUMBER: int := 8
  const DEFAULT_MAX_REQUEST: int := 10000

  class Threadpool<T> {
    const threadNumber: int
    const maxRequests: int
    var queue: seq<Option<T>>
    var sem: nat
    var stop: bool

    /**
     * Both sizes were positive when the pool was built, the semaphore counts
     * the queued entries, and the queue holds at most one more than the limit.
     */
    predicate Valid()
      reads this
    {
      threadNumber > 0 && maxRequests > 0 && sem == |queue| && |queue| <= maxRequests + 1
    }

    /** The queue, semaphore and stop flag as a value. */
    function State(): (s: PoolState<T>)
      reads this
      ensures s.queue == queue && s.sem == sem && s.stop == stop
    {
      PoolState(queue, sem, stop)
    }

    /** The constructor body once its argument check has passed: an empty queue, a zero semaphore, not stopped. */
    constructor (threadNumber: int, maxRequest: int)
      requires threadNumber > 0 && maxRequest > 0
      ensures this.threadNumber == threadNumber && maxRequests == maxRequest
      ensures Valid() && State() == PoolState([], 0, false)
    {
      this.threadNumber := threadNumber;
      maxRequests := maxRequest;
      queue := [];
      sem := 0;
      stop := false;
    }

    /** Threadpool(thread_number, max_request): throws, here None, when either size is not positive. */
    static method Create(threadNumber: int, maxRequest: int) returns (pool: Option<Threadpool<T>>)
      ensures pool.None? <==> threadNumber <= 0 || maxRequest <= 0
      ensures pool.Some? ==> fresh(pool.value) && pool.value.Valid()
      ensures pool.Some? ==> pool.value.threadNumber == threadNumber && pool.value.maxRequests == maxRequest
      ensures pool.Some? ==> pool.value.State() == PoolState([], 0, false)
    {
      if threadNumber <= 0 || maxRequest <= 0 {
        return None;
      }
      var p := new Threadpool(threadNumber, maxRequest);
      return Some(p);
    }

    /** new Threadpool<T>: the default arguments, 8 threads and at most 10000 waiting requests; the check passes. */
    static method CreateDefault() returns (pool: Threadpool<T>)
      ensures fresh(pool) && pool.Valid()
      ensures pool.threadNumber == DEFAULT_THREAD_NUMBER && pool.maxRequests == DEFAULT_MAX_REQUEST
      ensures pool.State() == PoolState([], 0, false)
    {
      var created := Create(DEFAULT_THREAD_NUMBER, DEFAULT_MAX_REQUEST);
      pool := created.value;
    }

    /** append(request): queue at the back and post the semaphore unless the queue is over its limit. */
    method Append(request: Option<T>) returns (ok: bool)
      requires Valid()
      modifies this
      ensures Valid()
      ensures (State(), ok) == RequestQueue.Append(old(State()), maxRequests, request)
    {
      if |queue| > maxRequests {
        return false;
      }
      queue := queue + [request];
      sem := sem + 1;
      return true;
    }

    /** One iteration of run(): wait on the semaphore, then take the front request if there is one. */
    method RunOnce() returns (step: Step<T>)
      requires Valid()
      modifies this
      ensures Valid()
      ensures (State(), step) == WorkerStep(old(State()))
    {
      if stop {
        return Exited;
      }
      if sem == 0 {
        return Blocked;
      }
      sem := sem - 1;
      if |queue| == 0 {
        return Spurious;
      }
      var request := queue[0];
      queue := queue[1..];
      if request.None? {
        return SkippedNull;
      }
      return Processed(request.value);
    }

    /** ~Threadpool(): raise the stop flag, so that each worker's next iteration exits. */
    method Stop()
      requires Valid()
      modifies this
      ensures Valid() && State() == old(State()).(stop := true)
    {
      stop := true;
    }
  }
}
