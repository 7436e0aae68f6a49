/** The jobs reference table and the service that lists, reads, creates,
    renames and deletes its rows. */
module Jobs {
  import opened Wrappers
  import Rows

  datatype Job = Job(id: int, title: string)

  function JobId(j: Job): int { j.id }

  class JobService {
    /** The jobs table, in insertion (= ascending id) order. */
    var jobs: seq<Job>
    /** The next value of the identity column. */
    var nextId: int

    ghost predicate Valid()
      reads this
    {
      && Rows.IncreasingKeys(jobs, JobId)
      && 0 < nextId
      && (forall k :: 0 <= k < |jobs| ==> 0 < jobs[k].id < nextId)
    }

    constructor ()
      ensures Valid() && jobs == [] && nextId == 1
    {
      jobs, nextId := [], 1;
    }

    /** Every stored job, each with a distinct id. */
    function GetAllJobs(): (r: seq<Job>)
      reads this
      requires Valid()
      ensures r == jobs
      ensures forall i, j :: 0 <= i < j < |r| ==> r[i].id != r[j].id
    {
      jobs
    }

    /** The job with the given id, or none. */
    function GetJobById(id: int): (r: Option<Job>)
      reads this
      ensures r.Some? <==> Rows.HasKey(jobs, JobId, id)
      ensures r.Some? ==> r.value.id == id && r.value in jobs
    {
      var k := Rows.FindIndex(jobs, JobId, id);
      if k == -1 then None else Some(jobs[k])
    }

    /** Adds a job with the given title under a fresh id and returns it. */
    method CreateJob(title: string) returns (job: Job)
      requires Valid()
      modifies this
      ensures Valid()
      ensures job == Job(old(nextId), title)
      ensures !Rows.HasKey(old(jobs), JobId, job.id)
      ensures jobs == old(jobs) + [job]
      ensures nextId == old(nextId) + 1
    {
      job := Job(nextId, title);
      jobs := jobs + [job];
      nextId := nextId + 1;
    }

    /** Renames the job with the given id; none and no change when absent. */
    method UpdateJob(id: int, title: string) returns (r: Option<Job>)
      requires Valid()
      modifies this
      ensures Valid() && nextId == old(nextId)
      ensures r.Some? <==> Rows.HasKey(old(jobs), JobId, id)
      ensures r.None? ==> jobs == old(jobs)
      ensures r.Some? ==> r.value == Job(id, title) && jobs == Rows.ReplaceFirst(old(jobs), JobId, r.value)
      ensures |jobs| == |old(jobs)|
      ensures forall k :: 0 <= k < |jobs| && old(jobs)[k].id != id ==> jobs[k] == old(jobs)[k]
    {
      var k := Rows.FindIndex(jobs, JobId, id);
      if k == -1 {
        return None;
      }
      Rows.ReplaceFirstKeepsIncreasingKeys(jobs, JobId, Job(id, title));
      jobs := jobs[k := jobs[k].(title := title)];
      r := Some(jobs[k]);
    }

    /** Removes the job with the given id; no change when absent. */
    method DeleteJob(id: int)
      requires Valid()
      modifies this
      ensures Valid() && nextId == old(nextId)
      ensures jobs == Rows.RemoveKey(old(jobs), JobId, id)
      ensures Rows.HasKey(old(jobs), JobId, id) ==> jobs == Rows.RemoveAt(old(jobs), Rows.FindIndex(old(jobs), JobId, id))
    {
      var k := Rows.FindIndex(jobs, JobId, id);
      if k != -1 {
        Rows.RemoveAtIsRemoveKey(jobs, JobId, k);
        Rows.RemoveAtKeepsIncreasingKeys(jobs, JobId, k);
        jobs := Rows.RemoveAt(jobs, k);
      }
    }
  }
}
