/**
 Every interleaving of reads through one cache and one page table
 (src/arch/x86_64/page_cache.cpp): the mutex makes the two critical sections of a
 fetch atomic, the page walk between them is not, and each thread works through its
 own read page by page.
 */
module CacheRuns {
  import opened Words
  import opened PhysicalLayer
  import opened Paging
  import opened PageCache

  /** A read in progress: its address, how far it has come, the buffer, and the count so far. */
  datatype Job = Job(va: u64, at: nat, buf: seq<u8>, total: nat)

  /** Where a thread stands in its current call of read. */
  datatype Thread =
    | Idle
    | AtPage(job: Job)
    | Missed(job: Job)
    | Decoded(job: Job, page: Page)
    | Fetched(job: Job, page: Page)
    | Finished(job: Job)

  datatype State = State(cache: Cache, threads: map<nat, Thread>)

  /** The fixed surroundings of a run: physical memory, page table root, cache budget. */
  datatype Env = Env(m: Memory, dtb: u64, maxBytes: nat)

  /** The address the next byte is read from; it wraps at 2^64. */
  function Cursor(j: Job): u64 { (j.va + j.at) % TWO_64 }

  function PageVa(j: Job): (p: u64)
    ensures p % PAGE == 0
  {
    PageOf(Cursor(j));
    Cursor(j) - Cursor(j) % PAGE
  }

  function Chunk(j: Job): nat
    requires j.at < |j.buf|
  {
    Min(|j.buf| - j.at, PAGE - Cursor(j) % PAGE)
  }

  /** The part of the page the read asks for, copied into the buffer. */
  function Copied(j: Job, page: Page): Job
    requires j.at < |j.buf| && |page.bytes| == PAGE
  {
    var off, n := Cursor(j) % PAGE, Chunk(j);
    Job(j.va, j.at + n,
      if page.mapped then j.buf[..j.at] + page.bytes[off..off + n] + j.buf[j.at + n..] else j.buf,
      if page.mapped then j.total + n else j.total)
  }

  function Continue(j: Job): Thread {
    if j.at < |j.buf| then AtPage(j) else Finished(j)
  }

  function Zeros(n: nat): seq<u8> { seq(n, i => 0) }

  // ---------- steps ----------

  ghost predicate Init(s: State) {
    s.cache == Cache([], map[], 0) && forall t | t in s.threads :: s.threads[t].Idle?
  }

  /** Thread t calls read. */
  ghost predicate StartStep(s: State, s': State, t: nat, va: u64, n: nat) {
    && t in s.threads && (s.threads[t].Idle? || s.threads[t].Finished?)
    && s' == s.(threads := s.threads[t := Continue(Job(va, 0, Zeros(n), 0))])
  }

  /** The first critical section of its next fetch. */
  ghost predicate LookupStep(e: Env, s: State, s': State, t: nat) {
    && t in s.threads && s.threads[t].AtPage?
    && var j := s.threads[t].job;
    var k := Key(e.dtb, PageVa(j));
    && (k in s.cache.pages ==> k in s.cache.lru)
    && s'.cache == AfterLookup(s.cache, k)
    && s'.threads == s.threads[t := if k in s.cache.pages then Fetched(j, s.cache.pages[k]) else Missed(j)]
  }

  /** The walk and decode, holding no lock. */
  ghost predicate DecodeStep(e: Env, s: State, s': State, t: nat) {
    && t in s.threads && s.threads[t].Missed?
    && var j := s.threads[t].job;
    s' == s.(threads := s.threads[t := Decoded(j, PageAt(e.m, e.dtb, PageVa(j)))])
  }

  /** The second critical section: insert, unless someone else has, and take what the map then holds. */
  ghost predicate InsertStep(e: Env, s: State, s': State, t: nat) {
    && t in s.threads && s.threads[t].Decoded?
    && var j := s.threads[t].job;
    var k := Key(e.dtb, PageVa(j));
    && (k in s.cache.pages ==> k in s.cache.lru)
    && s'.cache == AfterInsert(s.cache, k, s.threads[t].page, e.maxBytes)
    && k in s'.cache.pages
    && s'.threads == s.threads[t := Fetched(j, s'.cache.pages[k])]
  }

  ghost predicate CopyStep(s: State, s': State, t: nat) {
    && t in s.threads && s.threads[t].Fetched?
    && var j, page := s.threads[t].job, s.threads[t].page;
    && j.at < |j.buf| && |page.bytes| == PAGE
    && s' == s.(threads := s.threads[t := Continue(Copied(j, page))])
  }

  /** One operation of thread t on the read it is in. */
  ghost predicate OwnStep(e: Env, s: State, s': State, t: nat) {
    LookupStep(e, s, s', t) || DecodeStep(e, s, s', t) || InsertStep(e, s, s', t) || CopyStep(s, s', t)
  }

  ghost predicate Next(e: Env, s: State, s': State) {
    || (exists t: nat, va: u64, n: nat :: StartStep(s, s', t, va, n))
    || (exists t: nat :: OwnStep(e, s, s', t))
  }

  // ---------- the invariant ----------

  /** The buffer's finished part is what the page table gives, the rest zero, and the count is of mapped bytes. */
  ghost predicate JobOk(e: Env, j: Job) {
    && j.at <= |j.buf|
    && Partial(VirtualMemory(e.m, e.dtb), j.va, j.buf, j.at)
    && j.total == Count(Mapped(e.m, e.dtb), j.va, j.at)
  }

  ghost predicate ThreadOk(e: Env, th: Thread) {
    match th
    case Idle => true
    case AtPage(j) => JobOk(e, j) && j.at < |j.buf|
    case Missed(j) => JobOk(e, j) && j.at < |j.buf|
    case Decoded(j, page) => JobOk(e, j) && j.at < |j.buf| && page == PageAt(e.m, e.dtb, PageVa(j))
    case Fetched(j, page) => JobOk(e, j) && j.at < |j.buf| && page == PageAt(e.m, e.dtb, PageVa(j))
    case Finished(j) => JobOk(e, j) && j.at == |j.buf|
  }

  ghost predicate Inv(e: Env, s: State) {
    && WithinBudget(s.cache, e.maxBytes) && Coherent(s.cache, e.m, e.dtb)
    && forall t | t in s.threads :: ThreadOk(e, s.threads[t])
  }

  lemma StartOk(e: Env, va: u64, n: nat)
    ensures ThreadOk(e, Continue(Job(va, 0, Zeros(n), 0)))
  {
    hide VirtualMemory, Mapped;
  }

  lemma CopiedBytes(j: Job, page: Page)
    requires j.at < |j.buf| && |page.bytes| == PAGE
    ensures var after := Copied(j, page).buf;
      |after| == |j.buf| && forall i | 0 <= i < |after| ::
        after[i] == if page.mapped && j.at <= i < j.at + Chunk(j) then page.bytes[Cursor(j) % PAGE + (i - j.at)]
                    else j.buf[i]
  {
    hide Cursor;
  }

  lemma CopyOk(e: Env, j: Job)
    requires JobOk(e, j) && j.at < |j.buf|
    ensures ThreadOk(e, Continue(Copied(j, PageAt(e.m, e.dtb, PageVa(j)))))
  {
    hide PageAt, VirtualMemory, Mapped, Partial, Count;
    var page := PageAt(e.m, e.dtb, PageVa(j));
    CachedWindow(e.m, e.dtb, j.va + j.at, Cursor(j), Chunk(j));
    CopiedBytes(j, page);
    CachedChunk(e.m, e.dtb, j.va, j.at, Chunk(j), page, j.buf, Copied(j, page).buf);
  }

  lemma ThreadChanged(e: Env, s: State, s': State, t: nat, th: Thread)
    requires Inv(e, s) && s'.threads == s.threads[t := th] && ThreadOk(e, th)
    requires WithinBudget(s'.cache, e.maxBytes) && Coherent(s'.cache, e.m, e.dtb)
    ensures Inv(e, s')
  {
    hide ThreadOk, WithinBudget, Coherent;
  }

  lemma LookupKeepsInv(e: Env, s: State, s': State, t: nat)
    requires Inv(e, s) && LookupStep(e, s, s', t)
    ensures Inv(e, s')
  {
    hide Key, PageAt, JobOk, Consistent;
    var k := Key(e.dtb, PageVa(s.threads[t].job));
    if k in s.cache.pages { TouchStays(s.cache, k, e); }
    ThreadChanged(e, s, s', t, s'.threads[t]);
  }

  lemma TouchStays(c: Cache, k: nat, e: Env)
    requires WithinBudget(c, e.maxBytes) && Coherent(c, e.m, e.dtb) && k in c.pages
    ensures k in c.lru && WithinBudget(Touch(c, k), e.maxBytes) && Coherent(Touch(c, k), e.m, e.dtb)
  {
    hide Key, PageAt;
    TouchKeeps(c, k);
  }

  lemma InsertKeepsInv(e: Env, s: State, s': State, t: nat)
    requires e.maxBytes >= PAGE_BYTES && Inv(e, s) && InsertStep(e, s, s', t)
    ensures Inv(e, s')
  {
    hide Key, PageAt, Evict, JobOk, WithinBudget;
    assert ThreadOk(e, s.threads[t]);
    InsertKeeps(s.cache, PageVa(s.threads[t].job), e.m, e.dtb, e.maxBytes);
    ThreadChanged(e, s, s', t, s'.threads[t]);
  }

  lemma OwnStepKeepsInv(e: Env, s: State, s': State, t: nat)
    requires e.maxBytes >= PAGE_BYTES && Inv(e, s) && OwnStep(e, s, s', t)
    ensures Inv(e, s')
  {
    hide Key, PageAt, Copied, JobOk, WithinBudget, Coherent, LookupStep, InsertStep;
    if LookupStep(e, s, s', t) {
      LookupKeepsInv(e, s, s', t);
    } else if InsertStep(e, s, s', t) {
      InsertKeepsInv(e, s, s', t);
    } else {
      assert ThreadOk(e, s.threads[t]);
      if CopyStep(s, s', t) {
        CopyOk(e, s.threads[t].job);
      }
      ThreadChanged(e, s, s', t, s'.threads[t]);
    }
  }

  /** Every step of any thread, the gap between the two locks included, keeps the invariant. */
  lemma StepKeepsInv(e: Env, s: State, s': State)
    requires e.maxBytes >= PAGE_BYTES && Inv(e, s) && Next(e, s, s')
    ensures Inv(e, s')
  {
    hide OwnStep, ThreadOk, WithinBudget, Coherent, Zeros;
    if t: nat :| OwnStep(e, s, s', t) {
      OwnStepKeepsInv(e, s, s', t);
    } else {
      var t: nat, va: u64, n: nat :| StartStep(s, s', t, va, n);
      StartOk(e, va, n);
      ThreadChanged(e, s, s', t, Continue(Job(va, 0, Zeros(n), 0)));
    }
  }

  /** A thread that has decoded can always take its second critical section: its page is there to return. */
  lemma InsertEnabled(e: Env, s: State, t: nat)
    requires e.maxBytes >= PAGE_BYTES && Inv(e, s) && t in s.threads && s.threads[t].Decoded?
    ensures exists s' :: InsertStep(e, s, s', t)
  {
    hide Key, PageAt, Evict, JobOk;
    assert ThreadOk(e, s.threads[t]);
    var j, page := s.threads[t].job, s.threads[t].page;
    var k := Key(e.dtb, PageVa(j));
    InsertKeeps(s.cache, PageVa(j), e.m, e.dtb, e.maxBytes);
    var c := AfterInsert(s.cache, k, page, e.maxBytes);
    var s' := State(c, s.threads[t := Fetched(j, c.pages[k])]);
    assert InsertStep(e, s, s', t);
  }

  // ---------- runs ----------

  ghost predicate Run(e: Env, run: seq<State>) {
    run != [] && Init(run[0]) && forall i | 0 < i < |run| :: Next(e, run[i - 1], run[i])
  }

  /**
   In every reachable state the map and the recency list hold the same keys, the
   byte count is right and within budget, and every read has filled the part of its
   buffer it has come to with the page table's bytes.
   */
  lemma {:induction false} RunsAreCorrect(e: Env, run: seq<State>, i: nat)
    requires e.maxBytes >= PAGE_BYTES && Run(e, run) && i < |run|
    ensures Inv(e, run[i])
  {
    hide Inv, Next;
    if i > 0 {
      RunsAreCorrect(e, run, i - 1);
      StepKeepsInv(e, run[i - 1], run[i]);
    } else {
      InitInv(e, run[0]);
    }
  }

  lemma InitInv(e: Env, s: State)
    requires Init(s)
    ensures Inv(e, s)
  {
    EmptyCacheIsFine(e.m, e.dtb, e.maxBytes);
  }

  /** A read that has returned has exactly the bytes an undisturbed page-table read gives, whatever ran beside it. */
  lemma FinishedReadsAreRight(e: Env, run: seq<State>, i: nat, t: nat)
    requires e.maxBytes >= PAGE_BYTES && Run(e, run) && i < |run|
    requires t in run[i].threads && run[i].threads[t].Finished?
    ensures var j := run[i].threads[t].job;
      && (forall k | 0 <= k < |j.buf| :: j.buf[k] == ValueAt(VirtualMemory(e.m, e.dtb), j.va + k))
      && j.total == Count(Mapped(e.m, e.dtb), j.va, |j.buf|)
  {
    hide Run, VirtualMemory, Mapped;
    RunsAreCorrect(e, run, i);
    assert ThreadOk(e, run[i].threads[t]);
  }

  /** A bound on the steps a thread still has to take in its read. */
  function StepsLeft(th: Thread): nat
    requires th.Idle? || th.job.at <= |th.job.buf|
  {
    match th
    case Idle => 0
    case AtPage(j) => 4 * (|j.buf| - j.at) + 4
    case Missed(j) => 4 * (|j.buf| - j.at) + 3
    case Decoded(j, _) => 4 * (|j.buf| - j.at) + 2
    case Fetched(j, _) => 4 * (|j.buf| - j.at) + 1
    case Finished(j) => 0
  }

  /** Each own step brings a read closer to its end, and no other thread's step sets it back. */
  lemma ReadsEnd(e: Env, s: State, s': State, t: nat)
    requires Inv(e, s) && Inv(e, s') && OwnStep(e, s, s', t)
    ensures t in s'.threads && StepsLeft(s'.threads[t]) < StepsLeft(s.threads[t])
    ensures forall u | u in s.threads && u != t :: u in s'.threads && s'.threads[u] == s.threads[u]
  {
    hide Key, PageAt, Coherent, WithinBudget, JobOk, AfterLookup, AfterInsert, Inv;
    ThreadHere(e, s, t);
    ThreadHere(e, s', t);
  }

  lemma ThreadHere(e: Env, s: State, t: nat)
    requires Inv(e, s) && t in s.threads
    ensures s.threads[t].Idle? || s.threads[t].job.at <= |s.threads[t].job.buf|
    ensures s.threads[t].Idle? || s.threads[t].Finished? || s.threads[t].job.at < |s.threads[t].job.buf|
  {
    assert ThreadOk(e, s.threads[t]);
  }
}
