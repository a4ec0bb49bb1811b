/** The disk driver: a linked queue of requests, one request at the device, and the
    interrupt handler that completes it and starts the next. */
module DiskDriver {
  import opened Collections

  datatype Operation = Read | Write

  /** The device: nothing to do; working on a command; done, with its interrupt pending. */
  datatype Hardware = Quiet | Busy | Interrupting

  /** sem says whether the request has a semaphore, its caller's or one of its own; raised
      counts the V calls on it. */
  class Request {
    var operation: Operation
    var block: nat
    var next: Request?
    var returnValue: int
    var sem: bool
    var raised: nat

    constructor (operation: Operation, block: nat, sem: bool)
      ensures this.operation == operation && this.block == block && this.sem == sem && raised == 0 && next == null
    {
      this.operation, this.block, this.sem := operation, block, sem;
      next, returnValue, raised := null, 0, 0;
    }
  }

  /** From first on, the next fields go through exactly the requests of queue. */
  ghost predicate IsQueue(first: Request?, queue: seq<Request>)
    reads set i | 0 <= i < |queue| :: queue[i]
  {
    && (if queue == [] then first == null else first == queue[0] && queue[|queue| - 1].next == null)
    && (forall i, j :: 0 <= i < j == i + 1 < |queue| ==> queue[i].next == queue[j])
  }

  /** How often r was completed according to the log. */
  ghost function TimesIn(r: Request, log: seq<Request>): nat {
    multiset(log)[r]
  }

  class Disk {
    var requestQueue: Request?
    var requestServed: Request?
    var hardware: Hardware
    ghost var queue: seq<Request>
    /** All requests accepted so far, and all completed ones, in their order. */
    ghost var submitted: seq<Request>
    ghost var completed: seq<Request>
    /** Requests whose last submission was not accepted. */
    ghost var refused: set<Request>

    ghost function Requests(): set<object>
      reads this
    {
      (set i | 0 <= i < |queue| :: queue[i] as object) + (set i | 0 <= i < |submitted| :: submitted[i] as object)
    }

    /** What holds inside the driver's critical sections as well. */
    ghost predicate Consistent()
      reads this, Requests()
    {
      && IsQueue(requestQueue, queue) && NoDuplicates(queue)
      && (requestServed != null ==> requestServed !in queue)
      && (requestServed == null <==> hardware == Quiet)
      && (forall r :: r in submitted ==> r.raised == TimesIn(r, completed))
      && (forall r :: r in submitted && r !in queue && r != requestServed && r !in refused ==> r.returnValue == 0)
      && submitted == completed + (if requestServed != null then [requestServed] else []) + queue
    }

    /** At every release of the lock the device is idle only if the queue is empty. */
    ghost predicate Valid()
      reads this, Requests()
    {
      Consistent() && (requestServed == null ==> queue == [])
    }

    /** Requests are served in the order of submission, and the device is idle exactly when
        all accepted requests are completed. */
    lemma ServedInOrder()
      requires Valid()
      ensures completed <= submitted
      ensures requestServed != null <==> |completed| < |submitted|
      ensures requestServed != null ==> requestServed == submitted[|completed|]
    {
      assert submitted == completed + submitted[|completed|..];
    }

    /** disk_init. */
    constructor ()
      ensures Valid() && submitted == [] && requestServed == null
    {
      requestQueue, requestServed, hardware := null, null, Quiet;
      queue, submitted, completed, refused := [], [], [], {};
    }

    /** disksched_schedule: to the end of the queue. */
    method Schedule(request: Request)
      requires IsQueue(requestQueue, queue) && NoDuplicates(queue) && request !in queue && request.next == null
      modifies this`requestQueue, this`queue, set i | 0 <= i < |queue| :: queue[i]`next
      ensures queue == old(queue) + [request] && IsQueue(requestQueue, queue) && NoDuplicates(queue)
    {
      if requestQueue != null {
        var q := requestQueue;
        ghost var k := 0;
        while q.next != null
          invariant 0 <= k < |queue| && q == queue[k]
          invariant queue == old(queue) && requestQueue == old(requestQueue) && IsQueue(requestQueue, queue)
          decreases |queue| - k
        {
          q := q.next;
          k := k + 1;
        }
        LastOf(requestQueue, queue, k);
        q.next := request;
      } else {
        requestQueue := request;
      }
      queue := queue + [request];
    }

    /** disk_next_request: the oldest request goes to the idle device. */
    method NextRequest()
      requires Consistent() && requestServed == null
      modifies this`requestQueue, this`requestServed, this`hardware, this`queue, set i | 0 <= i < |queue| :: queue[i]`next
      ensures Valid()
      ensures old(queue) == [] ==> requestServed == null
      ensures old(queue) != [] ==> requestServed == old(queue)[0] && requestServed.next == null
    {
      hide TimesIn;
      var req := requestQueue;
      assert hardware == Quiet && requestServed == null;
      if req == null {
        return;
      }
      TailNoDuplicates(queue);
      requestQueue := req.next;
      req.next := null;
      requestServed := req;
      hardware := Busy;
      queue := queue[1..];
    }

    /** The locked part of disk_submit_request. */
    method Enqueue(request: Request)
      requires Consistent() && (requestServed == null ==> queue == []) && request !in queue && request != requestServed
      requires request.raised == TimesIn(request, completed) && request.next == null
      modifies this`requestQueue, this`requestServed, this`hardware, this`queue, this`submitted, this`refused
      modifies request`next, set i | 0 <= i < |queue| :: queue[i]`next
      ensures Valid() && submitted == old(submitted) + [request] && refused == old(refused) - {request}
      ensures requestServed == if old(requestServed) == null then request else old(requestServed)
    {
      hide TimesIn, IsQueue, NoDuplicates;
      refused := refused - {request};
      Schedule(request);
      submitted := submitted + [request];
      if requestServed == null {
        NextRequest();
      }
    }

    /** disk_submit_request up to the release of the lock; a request without a semaphore is
        synchronous, and semaphoreFree says whether it gets one. What the caller wants done, the
        operation and the block, is not touched in any request. */
    method Submit(request: Request, semaphoreFree: bool) returns (accepted: bool)
      requires Valid() && request !in queue && request != requestServed
      requires request !in submitted ==> request.raised == 0
      modifies this, request`next, request`returnValue, request`sem, set i | 0 <= i < |queue| :: queue[i]`next
      ensures Valid()
      ensures accepted <==> old(request.sem) || semaphoreFree
      ensures request.sem == accepted && (request in refused <==> !accepted)
      ensures completed == old(completed) && request.raised == old(request.raised)
      ensures submitted == if accepted then old(submitted) + [request] else old(submitted)
      ensures !accepted ==> requestServed == old(requestServed) && queue == old(queue)
      ensures accepted ==> requestServed == if old(requestServed) == null then request else old(requestServed)
    {
      hide TimesIn, IsQueue;
      if request !in submitted {
        TimesNone(completed, request);
      }
      request.next := null;
      request.returnValue := -1;
      refused := refused + {request};
      if !request.sem {
        if !semaphoreFree {
          return false;
        }
        request.sem := true;
      }
      Enqueue(request);
      return true;
    }

    /** The rest of disk_submit_request for a synchronous caller, once its P has returned: by
        then the handler has raised the semaphore for each time the request was submitted. */
    method Await(request: Request) returns (result: int)
      requires Valid() && request in submitted && request !in refused && request.sem
      requires request.raised == TimesIn(request, submitted)
      modifies request`sem
      ensures Valid() && !request.sem && result == 1
      ensures request in completed && request !in queue && request != requestServed
    {
      hide IsQueue;
      NothingPending(request);
      request.sem := false;
      result := if request.returnValue == 0 then 1 else 0;
    }

    lemma NothingPending(request: Request)
      requires Valid() && request in submitted && request.raised == TimesIn(request, submitted)
      ensures request in completed && request !in queue && request != requestServed
    {
      TimesJoin(request, completed, if requestServed != null then [requestServed] else [], queue);
    }

    /** The device finishes its command and raises its interrupt. */
    method DeviceDone()
      requires Valid() && hardware == Busy
      modifies this`hardware
      ensures Valid() && hardware == Interrupting
    {
      hardware := Interrupting;
    }

    /** disk_interrupt_handle: the oldest request that is not completed yet is, and the next
        one is started. No request's operation, block or semaphore is touched. */
    method InterruptHandle()
      requires Valid()
      modifies this, (set i | 0 <= i < |queue| :: queue[i])`next
      modifies (set i | 0 <= i < |submitted| :: submitted[i])`returnValue
      modifies (set i | 0 <= i < |submitted| :: submitted[i])`raised
      ensures Valid() && submitted == old(submitted)
      ensures old(hardware) != Interrupting ==> completed == old(completed) && requestServed == old(requestServed)
      ensures old(hardware) == Interrupting ==>
                && old(requestServed) != null
                && completed == old(completed) + [old(requestServed)]
                && old(requestServed).returnValue == 0
                && old(requestServed).raised == old(requestServed.raised) + 1
                && (forall r :: r in submitted && r != old(requestServed) ==>
                      r.raised == old(r.raised) && r.returnValue == old(r.returnValue))
    {
      if hardware != Interrupting {
        return;
      }
      assert requestServed != null;
      assert requestServed == submitted[|completed|] && requestServed in Requests();
      CompleteServed();
      NextRequest();
    }

    /** The completion of the request at the device. */
    method CompleteServed()
      requires Valid() && requestServed != null
      modifies this, requestServed`returnValue, requestServed`raised
      ensures Consistent() && requestServed == null && submitted == old(submitted) && queue == old(queue)
      ensures completed == old(completed) + [old(requestServed)]
      ensures old(requestServed).returnValue == 0 && old(requestServed).raised == old(requestServed.raised) + 1
    {
      hide TimesIn, NoDuplicates, IsQueue;
      TimesAppend(completed, requestServed);
      assert requestServed in submitted;
      hardware := Quiet;
      requestServed.returnValue := 0;
      requestServed.raised := requestServed.raised + 1;
      completed := completed + [requestServed];
      requestServed := null;
    }
  }

  lemma LastOf(first: Request?, queue: seq<Request>, k: nat)
    requires IsQueue(first, queue) && k < |queue|
    ensures queue[k].next == null ==> k == |queue| - 1
  {
    assert k + 1 < |queue| ==> queue[k].next == queue[k + 1];
  }

  lemma TimesAppend(log: seq<Request>, x: Request)
    ensures forall r :: TimesIn(r, log + [x]) == TimesIn(r, log) + if r == x then 1 else 0
  {
  }

  lemma TimesJoin(r: Request, a: seq<Request>, b: seq<Request>, c: seq<Request>)
    requires r in a + b + c && TimesIn(r, a) == TimesIn(r, a + b + c)
    ensures r in a && r !in b && r !in c
  {
    assert multiset(a + b + c) == multiset(a) + multiset(b) + multiset(c);
  }

  lemma TimesNone(log: seq<Request>, r: Request)
    requires r !in log
    ensures TimesIn(r, log) == 0
  {
  }

  lemma TailNoDuplicates(queue: seq<Request>)
    requires NoDuplicates(queue) && queue != []
    ensures NoDuplicates(queue[1..]) && queue[0] !in queue[1..]
  {
  }
}
