/** The scheduler's pending-job store, `std::priority_queue<Job>` ordered by
    `Job::operator<`, seen as a multiset of jobs. The heap's internal layout
    and its choice among jobs of equal priority are not modelled: a pop may
    remove any job that no queued job outranks. */
module PriorityQueue {
  import opened Jobs

  /** `j` is a job `top()` may return for the queue `q`. */
  predicate IsTop(j: Job, q: multiset<Job>)
    ensures IsTop(j, q) ==> j in q && forall k :: k in q ==> k.priority <= j.priority
  {
    j in q && forall k :: k in q ==> !Less(j, k)
  }

  /** A non-empty queue always has a top job. */
  lemma {:induction false} TopExists(q: multiset<Job>)
    requires q != multiset{}
    ensures exists j :: IsTop(j, q)
    decreases |q|
  {
    var x :| x in q;
    var rest := q - multiset{x};
    assert q == rest + multiset{x};
    if rest == multiset{} {
      assert IsTop(x, q);
    } else {
      TopExists(rest);
      var y :| IsTop(y, rest);
      if Less(y, x) {
        assert IsTop(x, q);
      } else {
        assert IsTop(y, q);
      }
    }
  }

  /** `out` is what successive `top()`/`pop()` pairs can take out of `q`
      when nothing is pushed in between. */
  ghost predicate IsPopSequence(q: multiset<Job>, out: seq<Job>)
    decreases |out|
  {
    out == [] || (IsTop(out[0], q) && IsPopSequence(q - multiset{out[0]}, out[1..]))
  }

  /** Popping repeatedly takes out queued jobs, each at most as often as it
      was queued, in non-increasing order of priority. */
  lemma {:induction false} PopSequenceNonIncreasing(q: multiset<Job>, out: seq<Job>)
    requires IsPopSequence(q, out)
    ensures multiset(out) <= q
    ensures forall i, j :: 0 <= i < j < |out| ==> out[j].priority <= out[i].priority
    decreases |out|
  {
    if out != [] {
      var rest := q - multiset{out[0]};
      PopSequenceNonIncreasing(rest, out[1..]);
      assert out == [out[0]] + out[1..];
      assert multiset(out) == multiset{out[0]} + multiset(out[1..]);
      forall i, j | 0 <= i < j < |out|
        ensures out[j].priority <= out[i].priority
      {
        if i == 0 {
          assert out[j] == out[1..][j - 1];
          assert out[j] in multiset(out[1..]);
        } else {
          assert out[i] == out[1..][i - 1] && out[j] == out[1..][j - 1];
        }
      }
    }
  }

  /** Popping a top job and then a pop sequence of what remains is a pop
      sequence of the whole queue. */
  lemma PopThen(q: multiset<Job>, t: Job, tail: seq<Job>)
    requires IsTop(t, q) && IsPopSequence(q - multiset{t}, tail)
    ensures IsPopSequence(q, [t] + tail)
    ensures multiset([t] + tail) == multiset{t} + multiset(tail)
  {
  }

  /** A queue can always be emptied by popping: some pop sequence takes out
      exactly the queued jobs. */
  lemma {:induction false} DrainExists(q: multiset<Job>)
    ensures exists out :: IsPopSequence(q, out) && multiset(out) == q
    decreases |q|
  {
    if q == multiset{} {
      var none: seq<Job> := [];
      assert IsPopSequence(q, none) && multiset(none) == q;
    } else {
      TopExists(q);
      var t :| IsTop(t, q);
      var rest := q - multiset{t};
      DrainExists(rest);
      var tail :| IsPopSequence(rest, tail) && multiset(tail) == rest;
      PopThen(q, t, tail);
      assert multiset{t} + rest == q;
      assert IsPopSequence(q, [t] + tail) && multiset([t] + tail) == q;
    }
  }
}
