/** The job record of src/scheduler.hpp and src/job.hpp, and the two orderings
    the repository defines on it: `Job::operator<` (used by the scheduler's
    `std::priority_queue<Job>`) and `JobComparator` (declared beside the
    alternate `Job` of src/job.hpp). Both compare priorities and nothing else. */
module Jobs {

  /** A C++ `int`: the type of a job's id, its priority and a worker's thread id. */
  newtype int32 = x: int | -0x8000_0000 <= x < 0x8000_0000

  const MinInt32: int32 := -0x8000_0000
  const MaxInt32: int32 := 0x7fff_ffff

  /** One unit of work. `Job(id, priority, submitTick)` is the parameterized
      constructor. The task closure is opaque and runs as a no-op here, so it is
      not part of the value; `submitTick` is the clock reading, in nanoseconds
      since the epoch, taken when the job was stamped. */
  datatype Job = Job(id: int32, priority: int32, submitTick: int)

  /** `Job()`: the default constructor, stamped with the clock reading `now`. */
  function DefaultJob(now: int): (j: Job)
    ensures j.id == 0 && j.priority == 0 && j.submitTick == now
  {
    Job(0, 0, now)
  }

  /** `Job::operator<`: a job is "less" than another when it should run later. */
  predicate Less(a: Job, b: Job)
    ensures Less(a, b) ==> a.priority != b.priority
  {
    a.priority < b.priority
  }

  /** `JobComparator::operator()`: the comparator handed to a max-heap. */
  predicate Comparator(a: Job, b: Job)
    ensures Comparator(a, b) ==> a.priority != b.priority
  {
    a.priority < b.priority
  }

  /** Neither job is ordered before the other. */
  predicate Incomparable(a: Job, b: Job)
  {
    !Less(a, b) && !Less(b, a)
  }

  /** `Less` is a strict weak ordering, the requirement `std::priority_queue`
      places on its comparison: irreflexive, asymmetric, transitive, and with
      a transitive incomparability relation. */
  lemma LessIsStrictWeakOrder()
    ensures forall a :: !Less(a, a)
    ensures forall a, b :: Less(a, b) ==> !Less(b, a)
    ensures forall a, b, c :: Less(a, b) && Less(b, c) ==> Less(a, c)
    ensures forall a, b, c :: Incomparable(a, b) && Incomparable(b, c) ==> Incomparable(a, c)
  {
  }

  /** `Less` looks at the priority only: id and submission time never break a
      tie, so jobs of equal priority are incomparable (no FIFO order). */
  lemma LessDependsOnlyOnPriority(a: Job, a': Job, b: Job, b': Job)
    requires a.priority == a'.priority && b.priority == b'.priority
    ensures Less(a, b) == Less(a', b')
    ensures a.priority == b.priority ==> Incomparable(a, b)
  {
  }

  /** `JobComparator` and `Job::operator<` are the same relation. */
  lemma ComparatorAgreesWithLess(a: Job, b: Job)
    ensures Comparator(a, b) == Less(a, b)
  {
  }

  /** `JobComparator` is a strict weak ordering in which jobs of equal
      priority are incomparable. */
  lemma ComparatorIsStrictWeakOrder()
    ensures forall a :: !Comparator(a, a)
    ensures forall a, b :: Comparator(a, b) ==> !Comparator(b, a)
    ensures forall a, b, c :: Comparator(a, b) && Comparator(b, c) ==> Comparator(a, c)
    ensures forall a, b, c ::
      (!Comparator(a, b) && !Comparator(b, a)) && (!Comparator(b, c) && !Comparator(c, b)) ==>
      !Comparator(a, c) && !Comparator(c, a)
    ensures forall a: Job, b: Job :: (!Comparator(a, b) && !Comparator(b, a)) <==> a.priority == b.priority
  {
  }
}
