/** The dispatcher of http_server (http_server.hpp): the bookkeeping that
    handle_connections does around epoll, and the protocol between the
    acceptor, the dispatcher and the workers.

    epoll_wait, the pipes and the worker threads are replaced by events:
    each event names the fd that fired, its ERR/HUP flags and, for a pipe,
    the bytes the read of that pipe returns. The bookkeeping is a value of
    the datatype Books; the functions OnEvent, Admit and Assign say what one
    event, the admission loop and the assignment loop do to it, and the
    class Server is proved to do the same on its fields. The fds the
    dispatcher believes it registered in epoll are kept as ghost state
    (armed), with the number of connections closed on ERR/HUP (leaked), to
    state how the counters relate to them. A failed accept4 arrives as fd
    65535 and is admitted and armed like any other, although epoll_ctl
    refuses it and no event ever comes for it (FailedAcceptArmed). */
module HttpServer {
  import opened Common

  // ---------------------------------------------------------------------
  // The fd on the control pipe (http_server.hpp:105-109, 157)
  // ---------------------------------------------------------------------

  /** val[0] = new_fd & 255 and val[1] = new_fd >> 8, each stored in a
      uint8_t. The shift is arithmetic, so a negative fd (a failed accept4)
      is encoded too. */
  function EncodeFd(fd: int): (bytes: (byte, byte))
  {
    (fd % 256, (fd / 256) % 256)
  }

  /** ((int)buffer[1] << 8) | buffer[0]. */
  function DecodeFd(lo: byte, hi: byte): (fd: int)
    ensures 0 <= fd < 65536
  {
    hi * 256 + lo
  }

  /** Decoding gives the fd back exactly when it is below 2^16. */
  lemma FdRoundTrip(fd: int)
    ensures DecodeFd(EncodeFd(fd).0, EncodeFd(fd).1) == fd <==> 0 <= fd < 65536
  {
    var lo := fd % 256;
    var q := fd / 256;
    assert fd == q * 256 + lo;
    if 0 <= fd < 65536 {
      assert 0 <= q < 256;
      assert q % 256 == q;
    }
  }

  /** Every pair of bytes is the encoding of the fd it decodes to. */
  lemma EncodeDecode(lo: byte, hi: byte)
    ensures EncodeFd(DecodeFd(lo, hi)) == (lo, hi)
  {
    var fd := hi * 256 + lo;
    assert fd / 256 == hi;
  }

  /** accept4 returning -1 is sent as the bytes 255, 255 and read back as
      the fd 65535. */
  lemma FailedAcceptDecodes()
    ensures EncodeFd(-1) == (255, 255) && DecodeFd(255, 255) == 65535
  {
  }

  // ---------------------------------------------------------------------
  // Events and the bookkeeping
  // ---------------------------------------------------------------------

  /** One entry of events[]: the fd, EPOLLERR, EPOLLHUP and, when the fd is
      a pipe, what read returns on it. */
  datatype Event = Event(fd: int, err: bool, hup: bool, payload: seq<byte>)

  /** What is fixed once the constructor has run: the read end of the
      connection pipe, thread_id[] over the fds of the worker pipes (its
      domain is is_thread_fd[]), and the two limits. */
  datatype Config = Config(controlFd: int, threadId: map<int, nat>, maxConcurrent: int, maxWorkers: nat)

  /** The state handle_connections updates. */
  datatype Books = Books(
    count: int,                   // concurrent_connection_count
    currentSize: int,             // current_size
    connFdQueue: seq<int>,        // accepted fds not admitted yet (front first)
    fdQueue: seq<int>,            // fds with data, waiting for a worker (front first)
    threadPool: seq<nat>,         // idle worker slots (back last)
    workingFd: map<nat, int>)     // working_fd[]: the fd each slot was given

  /** The three branches of lines 151-205. */
  datatype Source = Control | Worker(slot: nat) | Connection

  function SourceOf(c: Config, fd: int): Source
  {
    if fd == c.controlFd then Control
    else if fd in c.threadId then Worker(c.threadId[fd])
    else Connection
  }

  /** One event (lines 151-205). None when the process exits because a
      pipe read did not return the expected number of bytes. */
  function OnEvent(c: Config, b: Books, e: Event): (r: Option<Books>)
  {
    match SourceOf(c, e.fd)
    case Control =>
      if |e.payload| != 2 then None
      else Some(b.(connFdQueue := b.connFdQueue + [DecodeFd(e.payload[0], e.payload[1])]))
    case Worker(slot) =>
      if |e.payload| != 1 then None
      else if e.payload[0] != 0 then Some(b.(threadPool := b.threadPool + [slot], count := b.count - 1))
      else Some(b.(threadPool := b.threadPool + [slot], currentSize := b.currentSize + 1))
    case Connection =>
      if e.err || e.hup then Some(b)
      else Some(b.(fdQueue := b.fdQueue + [e.fd], currentSize := b.currentSize - 1))
  }

  /** The for loop over events[] (lines 149-206), stopping at an exit. */
  function OnEvents(c: Config, b: Books, es: seq<Event>): Option<Books>
    decreases |es|
  {
    if |es| == 0 then Some(b)
    else
      match OnEvent(c, b, es[0])
      case None => None
      case Some(b1) => OnEvents(c, b1, es[1..])
  }

  /** How many fds the admission loop takes. */
  function Admitted(c: Config, b: Books): nat
  {
    if b.count >= c.maxConcurrent then 0 else Min(c.maxConcurrent - b.count, |b.connFdQueue|)
  }

  /** The admission loop (lines 208-221). */
  function Admit(c: Config, b: Books): (r: Books)
    ensures var k := Admitted(c, b);
            r == b.(connFdQueue := b.connFdQueue[k..], count := b.count + k, currentSize := b.currentSize + k)
    decreases |b.connFdQueue|
  {
    if b.count < c.maxConcurrent && |b.connFdQueue| > 0 then
      Admit(c, b.(connFdQueue := b.connFdQueue[1..], count := b.count + 1, currentSize := b.currentSize + 1))
    else b
  }

  /** How many pairings the assignment loop makes. */
  function Assigned(b: Books): nat
  {
    Min(|b.fdQueue|, |b.threadPool|)
  }

  /** The assignment loop (lines 223-235): it returns the new books and the
      (slot, fd) pairs handed to workers, in order. */
  function Assign(b: Books): (r: (Books, seq<(nat, int)>))
    decreases |b.fdQueue|
  {
    if |b.fdQueue| > 0 && |b.threadPool| > 0 then
      var n := |b.threadPool|;
      var id := b.threadPool[n - 1];
      var fd := b.fdQueue[0];
      var r := Assign(b.(threadPool := b.threadPool[..n - 1], fdQueue := b.fdQueue[1..], workingFd := b.workingFd[id := fd]));
      (r.0, [(id, fd)] + r.1)
    else (b, [])
  }

  /** Assignment makes min(|fd_queue|, |thread_pool|) pairings, taking fds
      from the front of the queue and slots from the back of the pool. */
  lemma {:induction false} AssignPairs(b: Books)
    ensures var r := Assign(b);
            |r.1| == Assigned(b) &&
            (forall i :: 0 <= i < |r.1| ==> r.1[i] == (b.threadPool[|b.threadPool| - 1 - i], b.fdQueue[i])) &&
            r.0.threadPool == b.threadPool[..|b.threadPool| - |r.1|] && r.0.fdQueue == b.fdQueue[|r.1|..] &&
            r.0.count == b.count && r.0.currentSize == b.currentSize && r.0.connFdQueue == b.connFdQueue
    decreases |b.fdQueue|
  {
    if |b.fdQueue| > 0 && |b.threadPool| > 0 {
      var n := |b.threadPool|;
      var id := b.threadPool[n - 1];
      var fd := b.fdQueue[0];
      var b1 := b.(threadPool := b.threadPool[..n - 1], fdQueue := b.fdQueue[1..], workingFd := b.workingFd[id := fd]);
      AssignPairs(b1);
      var r1 := Assign(b1);
      var r := Assign(b);
      assert r == (r1.0, [(id, fd)] + r1.1);
      var k := |r.1|;
      assert forall i :: 1 <= i < k ==> r.1[i] == r1.1[i - 1];
      assert b1.threadPool[..n - 1 - (k - 1)] == b.threadPool[..n - k];
      assert b1.fdQueue[k - 1..] == b.fdQueue[k..];
    }
  }

  /** working_fd[id] = fd is recorded for every pairing, and the entries
      of slots outside the pool stay as they were (the pool holds distinct
      slots). */
  lemma {:induction false} AssignRecords(b: Books)
    requires Distinct(b.threadPool)
    ensures var r := Assign(b);
            forall i :: 0 <= i < |r.1| ==> r.1[i].0 in r.0.workingFd && r.0.workingFd[r.1[i].0] == r.1[i].1
    ensures var r := Assign(b);
            forall s :: s !in b.threadPool ==> (s in r.0.workingFd <==> s in b.workingFd) &&
                                               (s in b.workingFd ==> r.0.workingFd[s] == b.workingFd[s])
    decreases |b.fdQueue|
  {
    if |b.fdQueue| > 0 && |b.threadPool| > 0 {
      var n := |b.threadPool|;
      var id := b.threadPool[n - 1];
      var fd := b.fdQueue[0];
      var b1 := b.(threadPool := b.threadPool[..n - 1], fdQueue := b.fdQueue[1..], workingFd := b.workingFd[id := fd]);
      assert Distinct(b1.threadPool);
      AssignRecords(b1);
      assert id !in b1.threadPool;
      var r1 := Assign(b1);
      assert Assign(b) == (r1.0, [(id, fd)] + r1.1);
      forall s | s !in b.threadPool
        ensures s !in b1.threadPool && s != id
      {
      }
    }
  }

  /** Every event of a batch is one epoll can report at the moment the
      loop reaches it (see Legit). */
  ghost predicate BatchLegit(c: Config, b: Books, es: seq<Event>, armed: multiset<int>)
    decreases |es|
  {
    |es| == 0 ||
    (Legit(c, b, es[0], armed) &&
     (OnEvent(c, b, es[0]).Some? ==> BatchLegit(c, OnEvent(c, b, es[0]).value, es[1..], ArmedAfter(c, b, es[0], armed))))
  }

  /** One pass of the while(true) body: the events, then admission, then
      assignment. None when the process exits. */
  function Round(c: Config, b: Books, es: seq<Event>): Option<(Books, seq<(nat, int)>)>
  {
    match OnEvents(c, b, es)
    case None => None
    case Some(b1) => Some(Assign(Admit(c, b1)))
  }

  // ---------------------------------------------------------------------
  // What each step does (http_server.hpp:151-235)
  // ---------------------------------------------------------------------

  /** An ERR or HUP on a connection closes it and changes none of the
      books: neither the count nor current_size. */
  lemma HangUpChangesNothing(c: Config, b: Books, e: Event)
    requires SourceOf(c, e.fd) == Connection && (e.err || e.hup)
    ensures OnEvent(c, b, e) == Some(b)
  {
  }

  /** A connection with data is queued and current_size drops by one. */
  lemma ReadyQueues(c: Config, b: Books, e: Event)
    requires SourceOf(c, e.fd) == Connection && !e.err && !e.hup
    ensures OnEvent(c, b, e) == Some(b.(fdQueue := b.fdQueue + [e.fd], currentSize := b.currentSize - 1))
  {
  }

  /** A worker's report returns its slot to the back of the pool; a
      nonzero byte closes the connection (count - 1), a zero byte re-arms it
      (current_size + 1). */
  lemma CompletionReturnsSlot(c: Config, b: Books, e: Event, slot: nat)
    requires SourceOf(c, e.fd) == Worker(slot) && |e.payload| == 1
    ensures OnEvent(c, b, e).Some?
    ensures OnEvent(c, b, e).value.threadPool == b.threadPool + [slot]
    ensures e.payload[0] != 0 ==> OnEvent(c, b, e).value.count == b.count - 1 &&
                                  OnEvent(c, b, e).value.currentSize == b.currentSize
    ensures e.payload[0] == 0 ==> OnEvent(c, b, e).value.count == b.count &&
                                  OnEvent(c, b, e).value.currentSize == b.currentSize + 1
  {
  }

  /** Admission never takes the count above the cap it started below. */
  lemma AdmitBounded(c: Config, b: Books)
    requires b.count <= c.maxConcurrent
    ensures Admit(c, b).count <= c.maxConcurrent
    ensures Admit(c, b).count == c.maxConcurrent || |Admit(c, b).connFdQueue| == 0
  {
  }

  // ---------------------------------------------------------------------
  // The worker (http_server.hpp:239-255)
  // ---------------------------------------------------------------------

  /** The byte handle_fd writes back: 1 when receive_message failed,
      otherwise 0 exactly when handle_request returned 0. */
  function Verdict(received: int, handled: int): (v: byte)
    ensures v == 0 || v == 1
    ensures v == 0 <==> received >= 0 && handled == 0
  {
    if received < 0 then 1
    else if handled == 0 then 0
    else 1
  }

  /** The dispatcher closes the connection exactly when the worker did not
      ask to keep it. */
  lemma VerdictCloses(c: Config, b: Books, e: Event, slot: nat, received: int, handled: int)
    requires SourceOf(c, e.fd) == Worker(slot) && e.payload == [Verdict(received, handled)]
    ensures OnEvent(c, b, e).Some?
    ensures OnEvent(c, b, e).value.count == b.count - 1 <==> received < 0 || handled != 0
  {
  }

  // ---------------------------------------------------------------------
  // The accounting invariant
  // ---------------------------------------------------------------------

  ghost predicate Distinct(s: seq<nat>)
  {
    forall i, j :: 0 <= i < j < |s| ==> s[i] != s[j]
  }

  /** The slots: the pool holds distinct slots below maxWorkers, and every
      slot outside it has been given an fd. */
  ghost predicate Slots(c: Config, b: Books)
  {
    Distinct(b.threadPool) &&
    (forall i :: 0 <= i < |b.threadPool| ==> b.threadPool[i] < c.maxWorkers) &&
    (forall s: nat :: s < c.maxWorkers && s !in b.threadPool ==> s in b.workingFd)
  }

  /** A pool of distinct slots below n has at most n of them. */
  lemma PoolBound(pool: seq<nat>, n: nat)
    requires Distinct(pool) && forall i :: 0 <= i < |pool| ==> pool[i] < n
    ensures |pool| <= n
  {
    var s := set i | 0 <= i < |pool| :: pool[i];
    SetSizeOfDistinct(pool);
    BoundedSetSize(s, n);
  }

  lemma {:induction false} SetSizeOfDistinct(pool: seq<nat>)
    requires Distinct(pool)
    ensures |set i | 0 <= i < |pool| :: pool[i]| == |pool|
  {
    if |pool| > 0 {
      var init := pool[..|pool| - 1];
      SetSizeOfDistinct(init);
      var last := pool[|pool| - 1];
      assert (set i | 0 <= i < |pool| :: pool[i]) == (set i | 0 <= i < |init| :: init[i]) + {last};
      assert last !in set i | 0 <= i < |init| :: init[i];
    }
  }

  lemma {:induction false} BoundedSetSize(s: set<nat>, n: nat)
    requires forall x :: x in s ==> x < n
    ensures |s| <= n
  {
    if n > 0 {
      BoundedSetSize(s - {n - 1}, n - 1);
    } else {
      assert s == {};
    }
  }

  /** How the counters relate to the connections: every admitted
      connection is armed in epoll, queued for a worker, held by a busy
      slot, or was closed on ERR/HUP without being counted down; every armed
      connection and every connection closed that way still counts in
      current_size, besides the control pipe and the worker pipes. */
  ghost predicate Accounts(c: Config, b: Books, armed: multiset<int>, leaked: nat)
  {
    Slots(c, b) &&
    b.count == |armed| + |b.fdQueue| + (c.maxWorkers - |b.threadPool|) + leaked &&
    b.currentSize == 1 + c.maxWorkers + |armed| + leaked
  }

  /** What epoll can report: a worker pipe only for a busy slot, a
      connection only while it is armed. */
  ghost predicate Legit(c: Config, b: Books, e: Event, armed: multiset<int>)
  {
    match SourceOf(c, e.fd)
    case Control => true
    case Worker(slot) => slot < c.maxWorkers && slot !in b.threadPool
    case Connection => e.fd in armed
  }

  /** The armed connections after an event. */
  ghost function ArmedAfter(c: Config, b: Books, e: Event, armed: multiset<int>): multiset<int>
  {
    match SourceOf(c, e.fd)
    case Control => armed
    case Worker(slot) =>
      if |e.payload| == 1 && e.payload[0] == 0 && slot in b.workingFd then armed + multiset{b.workingFd[slot]}
      else armed
    case Connection => armed - multiset{e.fd}
  }

  /** The connections closed on ERR/HUP after an event. */
  ghost function LeakedAfter(c: Config, e: Event, leaked: nat): nat
  {
    if SourceOf(c, e.fd) == Connection && (e.err || e.hup) then leaked + 1 else leaked
  }

  lemma OnEventAccounts(c: Config, b: Books, e: Event, armed: multiset<int>, leaked: nat)
    requires Accounts(c, b, armed, leaked) && Legit(c, b, e, armed) && OnEvent(c, b, e).Some?
    ensures Accounts(c, OnEvent(c, b, e).value, ArmedAfter(c, b, e, armed), LeakedAfter(c, e, leaked))
  {
    var b1 := OnEvent(c, b, e).value;
    match SourceOf(c, e.fd)
    case Control =>
    case Worker(slot) =>
      var pool := b.threadPool + [slot];
      assert b1.threadPool == pool;
      forall i, j | 0 <= i < j < |pool|
        ensures pool[i] != pool[j]
      {
        if j == |pool| - 1 {
          assert pool[i] == b.threadPool[i];
        }
      }
      assert slot in b.workingFd;
    case Connection =>
      assert |armed - multiset{e.fd}| == |armed| - 1;
  }

  lemma AdmitAccounts(c: Config, b: Books, armed: multiset<int>, leaked: nat)
    requires Accounts(c, b, armed, leaked)
    ensures Accounts(c, Admit(c, b), armed + multiset(b.connFdQueue[..Admitted(c, b)]), leaked)
  {
  }

  /** A failed accept4 queued as 65535 is admitted like a connection: it
      is counted in both counters and joins the armed fds. Since no event
      ever comes for it, nothing counts it down again. */
  lemma FailedAcceptArmed(c: Config, b: Books, armed: multiset<int>, leaked: nat)
    requires Accounts(c, b, armed, leaked)
    requires b.count < c.maxConcurrent && |b.connFdQueue| > 0 && b.connFdQueue[0] == DecodeFd(EncodeFd(-1).0, EncodeFd(-1).1)
    ensures Admitted(c, b) > 0 && Admit(c, b).count == b.count + Admitted(c, b)
    ensures 65535 in armed + multiset(b.connFdQueue[..Admitted(c, b)])
    ensures Accounts(c, Admit(c, b), armed + multiset(b.connFdQueue[..Admitted(c, b)]), leaked)
  {
    FailedAcceptDecodes();
    AdmitAccounts(c, b, armed, leaked);
    assert b.connFdQueue[..Admitted(c, b)][0] == 65535;
  }

  lemma {:induction false} AssignAccounts(c: Config, b: Books, armed: multiset<int>, leaked: nat)
    requires Accounts(c, b, armed, leaked)
    ensures Accounts(c, Assign(b).0, armed, leaked)
    decreases |b.fdQueue|
  {
    if |b.fdQueue| > 0 && |b.threadPool| > 0 {
      var n := |b.threadPool|;
      var id := b.threadPool[n - 1];
      var b1 := b.(threadPool := b.threadPool[..n - 1], fdQueue := b.fdQueue[1..], workingFd := b.workingFd[id := b.fdQueue[0]]);
      assert b.threadPool == b1.threadPool + [id];
      assert Accounts(c, b1, armed, leaked);
      AssignAccounts(c, b1, armed, leaked);
    }
  }

  /** Slot conservation: under the invariant the pool never holds more
      than maxWorkers slots, and busy slots are the others. */
  lemma PoolWithinWorkers(c: Config, b: Books, armed: multiset<int>, leaked: nat)
    requires Accounts(c, b, armed, leaked)
    ensures |b.threadPool| <= c.maxWorkers
    ensures b.count >= |armed| + |b.fdQueue| + leaked
  {
    PoolBound(b.threadPool, c.maxWorkers);
  }

  /** Because ERR/HUP closes are never counted down, once maxConcurrent
      connections have been closed that way the admission loop admits
      nothing more, whatever is waiting. */
  lemma LeaksBlockAdmission(c: Config, b: Books, armed: multiset<int>, leaked: nat)
    requires Accounts(c, b, armed, leaked) && leaked >= c.maxConcurrent
    ensures Admitted(c, b) == 0 && Admit(c, b) == b
  {
    PoolWithinWorkers(c, b, armed, leaked);
    assert b.connFdQueue[0..] == b.connFdQueue;
  }

  /** What the ERR/HUP branch (lines 189-200) evidently means to do: the
      closed connection is counted down in both counters. */
  function HangUp(b: Books): (r: Books)
    ensures r.count == b.count - 1 && r.currentSize == b.currentSize - 1
    ensures r == b.(count := r.count, currentSize := r.currentSize)
  {
    b.(count := b.count - 1, currentSize := b.currentSize - 1)
  }

  /** Counted down that way, a closed connection leaves nothing behind: the
      accounts hold with the same number of leaked connections, so the
      counters keep matching the live connections. */
  lemma HangUpReleases(c: Config, b: Books, fd: int, armed: multiset<int>, leaked: nat)
    requires Accounts(c, b, armed, leaked) && fd in armed
    ensures Accounts(c, HangUp(b), armed - multiset{fd}, leaked)
  {
    assert |armed - multiset{fd}| == |armed| - 1;
  }

  // ---------------------------------------------------------------------
  // The dispatcher as a class (http_server.hpp:17-237)
  // ---------------------------------------------------------------------

  class Server {
    const controlFd: int
    const maxConcurrent: int
    const maxWorkers: nat
    var threadId: map<int, nat>
    var count: int
    var currentSize: int
    var connFdQueue: seq<int>
    var fdQueue: seq<int>
    var threadPool: seq<nat>
    var workingFd: map<nat, int>
    ghost var armed: multiset<int>
    ghost var leaked: nat

    function Conf(): Config
      reads this
    {
      Config(controlFd, threadId, maxConcurrent, maxWorkers)
    }

    function State(): Books
      reads this
    {
      Books(count, currentSize, connFdQueue, fdQueue, threadPool, workingFd)
    }

    ghost predicate Valid()
      reads this
    {
      Accounts(Conf(), State(), armed, leaked) &&
      controlFd !in threadId &&
      forall fd :: fd in threadId ==> threadId[fd] < maxWorkers
    }

    /** The constructor (lines 38-64) with the pipes pipe2 created, and the
        start of handle_connections (lines 116-126), which registers the
        connection pipe and every worker pipe and counts them in
        current_size. */
    constructor (controlFd: int, pipes: seq<(int, int)>, maxConcurrent: int)
      requires forall i :: 0 <= i < |pipes| ==> pipes[i].0 != controlFd && pipes[i].1 != controlFd
      requires forall i, j :: 0 <= i < |pipes| && 0 <= j < |pipes| && i != j ==>
                 pipes[i].0 != pipes[j].0 && pipes[i].0 != pipes[j].1 &&
                 pipes[i].1 != pipes[j].0 && pipes[i].1 != pipes[j].1
      ensures Valid()
      ensures maxWorkers == |pipes| && this.controlFd == controlFd && this.maxConcurrent == maxConcurrent
      ensures threadPool == seq(|pipes|, i => i)
      ensures forall fd :: fd in threadId <==> exists i :: 0 <= i < |pipes| && (fd == pipes[i].0 || fd == pipes[i].1)
      ensures forall i :: 0 <= i < |pipes| ==> pipes[i].0 in threadId && threadId[pipes[i].0] == i &&
                                               pipes[i].1 in threadId && threadId[pipes[i].1] == i
      ensures count == 0 && currentSize == 1 + |pipes|
      ensures connFdQueue == [] && fdQueue == [] && workingFd == map[]
      ensures armed == multiset{} && leaked == 0
    {
      var ids: map<int, nat> := map[];
      var pool: seq<nat> := [];
      var i := 0;
      while i < |pipes|
        invariant 0 <= i <= |pipes|
        invariant pool == seq(i, k => k)
        invariant forall fd :: fd in ids <==> exists k :: 0 <= k < i && (fd == pipes[k].0 || fd == pipes[k].1)
        invariant forall k :: 0 <= k < i ==> pipes[k].0 in ids && ids[pipes[k].0] == k && pipes[k].1 in ids && ids[pipes[k].1] == k
      {
        ids := ids[pipes[i].0 := i][pipes[i].1 := i];
        pool := pool + [i];
        i := i + 1;
      }
      var size := 0;
      size := size + 1;
      var w := 0;
      while w < |pipes|
        invariant 0 <= w <= |pipes|
        invariant size == 1 + w
      {
        size := size + 1;
        w := w + 1;
      }
      this.controlFd := controlFd;
      this.maxConcurrent := maxConcurrent;
      maxWorkers := |pipes|;
      threadId := ids;
      count := 0;
      currentSize := size;
      connFdQueue := [];
      fdQueue := [];
      threadPool := pool;
      workingFd := map[];
      armed := multiset{};
      leaked := 0;
      new;
      forall s: nat | s < |pipes|
        ensures s in pool
      {
        assert pool[s] == s;
      }
    }

    /** One event (lines 151-205); ok is false where the process exits. */
    method HandleEvent(e: Event) returns (ok: bool)
      requires Valid() && Legit(Conf(), State(), e, armed)
      modifies this
      ensures Valid()
      ensures ok == OnEvent(old(Conf()), old(State()), e).Some?
      ensures ok ==> State() == OnEvent(old(Conf()), old(State()), e).value
      ensures Conf() == old(Conf())
      ensures ok ==> armed == ArmedAfter(old(Conf()), old(State()), e, old(armed)) && leaked == LeakedAfter(old(Conf()), e, old(leaked))
    {
      if e.fd == controlFd {
        ok := NewConnection(e);
      } else if e.fd in threadId {
        ok := WorkerDone(e);
      } else {
        ConnectionEvent(e);
        ok := true;
      }
    }

    /** An fd on the connection pipe (lines 151-161). */
    method NewConnection(e: Event) returns (ok: bool)
      requires Valid() && e.fd == controlFd
      modifies this
      ensures Valid()
      ensures ok == OnEvent(old(Conf()), old(State()), e).Some?
      ensures ok ==> State() == OnEvent(old(Conf()), old(State()), e).value
      ensures Conf() == old(Conf()) && armed == old(armed) && leaked == old(leaked)
    {
      ghost var c := Conf();
      ghost var b := State();
      if |e.payload| != 2 {
        ok := false;
        return;
      }
      OnEventAccounts(c, b, e, armed, leaked);
      var newFd := DecodeFd(e.payload[0], e.payload[1]);
      connFdQueue := connFdQueue + [newFd];
      ok := true;
    }

    /** A worker's report on its pipe (lines 162-187). */
    method WorkerDone(e: Event) returns (ok: bool)
      requires Valid() && e.fd != controlFd && e.fd in threadId && Legit(Conf(), State(), e, armed)
      modifies this
      ensures Valid()
      ensures ok == OnEvent(old(Conf()), old(State()), e).Some?
      ensures ok ==> State() == OnEvent(old(Conf()), old(State()), e).value
      ensures Conf() == old(Conf()) && leaked == old(leaked)
      ensures ok ==> armed == ArmedAfter(old(Conf()), old(State()), e, old(armed))
    {
      ghost var c := Conf();
      ghost var b := State();
      var slot := threadId[e.fd];
      if |e.payload| != 1 {
        ok := false;
        return;
      }
      OnEventAccounts(c, b, e, armed, leaked);
      threadPool := threadPool + [slot];
      if e.payload[0] != 0 {
        count := count - 1;
      } else {
        armed := armed + multiset{workingFd[slot]};
        currentSize := currentSize + 1;
      }
      ok := true;
    }

    /** A connection fired (lines 188-204): closed on ERR/HUP, otherwise
        queued for a worker. */
    method ConnectionEvent(e: Event)
      requires Valid() && e.fd != controlFd && e.fd !in threadId && Legit(Conf(), State(), e, armed)
      modifies this
      ensures Valid()
      ensures OnEvent(old(Conf()), old(State()), e).Some?
      ensures State() == OnEvent(old(Conf()), old(State()), e).value
      ensures Conf() == old(Conf())
      ensures armed == ArmedAfter(old(Conf()), old(State()), e, old(armed)) && leaked == LeakedAfter(old(Conf()), e, old(leaked))
    {
      ghost var c := Conf();
      ghost var b := State();
      OnEventAccounts(c, b, e, armed, leaked);
      armed := armed - multiset{e.fd};
      if e.err || e.hup {
        leaked := leaked + 1;
      } else {
        fdQueue := fdQueue + [e.fd];
        currentSize := currentSize - 1;
      }
    }

    /** The for loop over the events epoll_wait returned (lines 149-206);
        ok is false where the process exits. */
    method HandleEvents(es: seq<Event>) returns (ok: bool)
      requires Valid() && BatchLegit(Conf(), State(), es, armed)
      modifies this
      ensures Valid() && Conf() == old(Conf())
      ensures ok == OnEvents(old(Conf()), old(State()), es).Some?
      ensures ok ==> State() == OnEvents(old(Conf()), old(State()), es).value
    {
      ghost var c := Conf();
      ok := true;
      var i := 0;
      while i < |es|
        invariant 0 <= i <= |es| && Valid() && Conf() == c
        invariant BatchLegit(c, State(), es[i..], armed)
        invariant OnEvents(c, old(State()), es) == OnEvents(c, State(), es[i..])
      {
        ghost var b := State();
        assert es[i..][1..] == es[i + 1..];
        ok := HandleEvent(es[i]);
        if !ok {
          return;
        }
        i := i + 1;
      }
    }

    /** The admission loop (lines 208-221). */
    method AdmitConnections()
      requires Valid()
      modifies this
      ensures Valid()
      ensures State() == Admit(old(Conf()), old(State())) && Conf() == old(Conf())
      ensures armed == old(armed) + multiset(old(connFdQueue)[..Admitted(old(Conf()), old(State()))])
      ensures leaked == old(leaked)
    {
      ghost var c := Conf();
      ghost var b := State();
      AdmitAccounts(c, b, armed, leaked);
      ghost var taken := 0;
      while count < maxConcurrent
        invariant threadId == c.threadId && leaked == old(leaked)
        invariant fdQueue == b.fdQueue && threadPool == b.threadPool && workingFd == b.workingFd
        invariant 0 <= taken <= |b.connFdQueue| && connFdQueue == b.connFdQueue[taken..]
        invariant taken == 0 || (b.count < maxConcurrent && count <= maxConcurrent)
        invariant count == b.count + taken && currentSize == b.currentSize + taken
        invariant armed == old(armed)
        decreases |connFdQueue|
      {
        if |connFdQueue| == 0 {
          break;
        }
        var newFd := connFdQueue[0];  // epoll_ctl(ADD, newFd) is not modelled
        connFdQueue := connFdQueue[1..];
        count := count + 1;
        currentSize := currentSize + 1;
        taken := taken + 1;
      }
      assert taken == Admitted(c, b);
      // the admitted fds are now registered in epoll
      armed := armed + multiset(b.connFdQueue[..taken]);
    }

    /** The assignment loop (lines 223-235): each pairing starts a worker
        on (slot, fd); the pairs are returned in order. */
    method AssignWorkers() returns (dispatched: seq<(nat, int)>)
      requires Valid()
      modifies this
      ensures Valid()
      ensures (State(), dispatched) == Assign(old(State())) && Conf() == old(Conf())
      ensures armed == old(armed) && leaked == old(leaked)
    {
      ghost var b := State();
      AssignAccounts(Conf(), b, armed, leaked);
      dispatched := [];
      assert [] + Assign(b).1 == Assign(b).1;
      while |fdQueue| > 0
        invariant Conf() == old(Conf()) && armed == old(armed) && leaked == old(leaked)
        invariant Assign(b) == (Assign(State()).0, dispatched + Assign(State()).1)
        decreases |fdQueue|
      {
        if |threadPool| == 0 {
          break;
        }
        ghost var before := State();
        ghost var sent := dispatched;
        var id := threadPool[|threadPool| - 1];
        threadPool := threadPool[..|threadPool| - 1];
        var fd := fdQueue[0];
        fdQueue := fdQueue[1..];
        workingFd := workingFd[id := fd];
        dispatched := dispatched + [(id, fd)];
        assert Assign(before) == (Assign(State()).0, [(id, fd)] + Assign(State()).1);
        assert sent + ([(id, fd)] + Assign(State()).1) == dispatched + Assign(State()).1;
      }
      assert Assign(State()) == (State(), []);
      assert dispatched + [] == dispatched;
    }

    /** One pass of the while(true) loop of handle_connections (lines
        147-236) on the events of one epoll_wait: ok is false where the
        process exits; otherwise dispatched lists the workers started. */
    method HandleRound(es: seq<Event>) returns (ok: bool, dispatched: seq<(nat, int)>)
      requires Valid() && BatchLegit(Conf(), State(), es, armed)
      modifies this
      ensures Valid() && Conf() == old(Conf())
      ensures ok == Round(old(Conf()), old(State()), es).Some?
      ensures ok ==> (State(), dispatched) == Round(old(Conf()), old(State()), es).value
    {
      dispatched := [];
      ok := HandleEvents(es);
      if !ok {
        return;
      }
      AdmitConnections();
      dispatched := AssignWorkers();
    }
  }
}
