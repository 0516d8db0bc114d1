/** The variables that the web checker's threads share, and what the locked sections do to them. */
module JobQueueShared {
  import opened Bytes
  import opened JobQueue

  class Shared {
    var jobs: seq<string>
    var jcount: nat

    constructor ()
      ensures jobs == Init(0).jobs && jcount == Init(0).jcount
    {
      jobs, jcount := [], 0;
    }

    /** The locked section of add_job; quit is set where the process exits. */
    method Push(s: string) returns (quit: bool)
      modifies this
      ensures quit <==> old(jcount) + 1 > 16
      ensures forall st: State | Enabled(st, ProducerPush) && st.jobs == old(jobs) && st.jcount == old(jcount)
                                 && st.producer.job == s ::
        var t := Apply(st, ProducerPush); t.jobs == jobs && t.jcount == jcount && t.halted == quit
    {
      jobs := jobs + [s];
      jcount := jcount + 1;
      quit := jcount > MAX_ATTEMPTS;
    }

    /** The worker's test of the queue; None is the case in which it waits. */
    method TakeFront() returns (job: Option<string>)
      modifies this`jobs
      ensures forall st: State, i: nat | Enabled(st, WorkerCheck(i)) && st.jobs == old(jobs) ::
        var t := Apply(st, WorkerCheck(i));
        t.jobs == jobs && t.workers[i] == if job.Some? then Took(job.value) else Blocked
    {
      job := None;
      if |jobs| > 0 {
        job := Some(jobs[0]);
        jobs := jobs[1..];
      }
    }
  }
}
