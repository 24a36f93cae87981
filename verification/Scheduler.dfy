/** The pull-based job scheduler (src/inference.rs, `InferenceScheduler`), with each operation as one step.
    Wall-clock times are milliseconds and may be skewed between nodes; instants are a monotone local clock. */
module Scheduler {
  import opened Options
  import opened Words

  datatype JobStatus =
    | Pending
    | Running(nodeId: string, startedAt: int)
    | Completed(nodeId: string, latencyMs: nat)
    | Failed(reason: string)
    | TimedOut
    | Cancelled

  datatype Job = Job(jobId: string, modelName: string, inputUri: string, maxLatencyMs: nat, status: JobStatus,
                     createdAt: int, requester: string)

  datatype Capabilities = Capabilities(cpuCores: nat, ramMb: nat, supportsTflite: bool)

  /** The age is cast to an unsigned number, so a creation time in the future looks very old. */
  predicate IsExpired(job: Job, now: int) { (now - job.createdAt) % TWO_TO_THE_64 > job.maxLatencyMs }

  function AgeMs(job: Job, now: int): nat { if now > job.createdAt then now - job.createdAt else 0 }

  function Score(c: Capabilities, job: Job, now: int): real {
    if !c.supportsTflite then 0.0
    else
      var base := 1.0 + c.cpuCores as real * 0.1 + c.ramMb as real / 1024.0 * 0.05;
      var age := AgeMs(job, now);
      var remaining := if age <= job.maxLatencyMs then job.maxLatencyMs - age else 0;
      if remaining < 100 then base * 0.1 else if remaining < 1000 then base * 0.5 else base
  }

  /** This node can run every job or none. */
  lemma ScorePositive(c: Capabilities, job: Job, now: int)
    ensures Score(c, job, now) > 0.0 <==> c.supportsTflite
  {
  }

  /** How pressing a job is: nearly out of time, under a second, or more. */
  function Slack(job: Job, now: int): nat {
    var left := if now > job.createdAt then job.createdAt + job.maxLatencyMs - now else job.maxLatencyMs;
    if left < 100 then 0 else if left < 1000 then 1 else 2
  }

  lemma Banded(base: real, i: nat, j: nat)
    requires base > 0.0 && i <= 2 && j <= 2
    ensures var factor := (k: nat) => if k == 0 then 0.1 else if k == 1 then 0.5 else 1.0;
            base * factor(i) <= base * factor(j) <==> i <= j
  {
  }

  /** On one node, jobs are preferred for the time they have left, in three bands, and for nothing else. */
  lemma ScoreIsSlack(c: Capabilities, a: Job, b: Job, now: int)
    requires c.supportsTflite
    ensures Score(c, a, now) <= Score(c, b, now) <==> Slack(a, now) <= Slack(b, now)
  {
    var base := 1.0 + c.cpuCores as real * 0.1 + c.ramMb as real / 1024.0 * 0.05;
    assert c.cpuCores as real >= 0.0 && c.ramMb as real / 1024.0 >= 0.0;
    Banded(base, Slack(a, now), Slack(b, now));
    assert Score(c, a, now) == base * (if Slack(a, now) == 0 then 0.1 else if Slack(a, now) == 1 then 0.5 else 1.0);
    assert Score(c, b, now) == base * (if Slack(b, now) == 0 then 0.1 else if Slack(b, now) == 1 then 0.5 else 1.0);
  }

  /** Beyond that a score grows with cores and memory, by a tenth for each core and a twentieth for each gigabyte, as
      far as the band allows. */
  lemma ScoreOfNode(c: Capabilities, job: Job, now: int)
    requires c.supportsTflite
    ensures var weight := if Slack(job, now) == 0 then 0.1 else if Slack(job, now) == 1 then 0.5 else 1.0;
            && Score(Capabilities(0, 0, true), job, now) == weight
            && Score(c.(cpuCores := c.cpuCores + 1), job, now) == Score(c, job, now) + weight / 10.0
            && Score(c.(ramMb := c.ramMb + 1024), job, now) == Score(c, job, now) + weight / 20.0
  {
  }

  /** A job is expired exactly when it is over its deadline, or was created in the future of this clock and its
      deadline is short of the number that this age becomes. */
  lemma ExpiredExactly(job: Job, now: int)
    requires -TWO_TO_THE_63 <= now - job.createdAt < TWO_TO_THE_63 && job.maxLatencyMs < TWO_TO_THE_64
    ensures IsExpired(job, now) <==>
      if now >= job.createdAt then now - job.createdAt > job.maxLatencyMs
      else job.createdAt - now < TWO_TO_THE_64 - job.maxLatencyMs
    ensures now < job.createdAt && job.maxLatencyMs < TWO_TO_THE_63 ==> IsExpired(job, now)
  {
    if now < job.createdAt {
      assert (now - job.createdAt) % TWO_TO_THE_64 == now - job.createdAt + TWO_TO_THE_64;
    }
  }

  /** Pulling considers a job if it is not expired and this node can run it. */
  predicate Suitable(c: Capabilities, job: Job, now: int) {
    !IsExpired(job, now) && Score(c, job, now) > 0.0
  }

  /** Instants are nanoseconds; the elapsed time is cut to whole milliseconds and to 64 bits. */
  function ElapsedMs(since: nat, instant: nat): nat {
    (if instant >= since then instant - since else 0) / 1_000_000 % TWO_TO_THE_64
  }

  /** The time is over exactly when a millisecond more than the latency has passed. */
  lemma ElapsedExactly(since: nat, instant: nat, maxLatencyMs: nat)
    requires instant - since < 1_000_000 * TWO_TO_THE_64
    ensures ElapsedMs(since, instant) > maxLatencyMs <==> instant - since >= (maxLatencyMs + 1) * 1_000_000
  {
  }

  /** The jobs are those of `gone`, each once, as timed out. */
  ghost predicate Dropped(was: map<string, (Job, nat)>, gone: set<string>, jobs: seq<Job>) {
    && |jobs| == |gone|
    && (forall k :: 0 <= k < |jobs| ==>
          var id := jobs[k].jobId; id in gone && id in was && jobs[k] == was[id].0.(status := TimedOut))
    && (forall i, j :: 0 <= i < j < |jobs| ==> jobs[i].jobId != jobs[j].jobId)
  }

  ghost function Without(was: map<string, (Job, nat)>, gone: set<string>): map<string, (Job, nat)> { was - gone }

  lemma WithoutNone(was: map<string, (Job, nat)>)
    ensures Without(was, {}) == was
  {
  }

  lemma WithoutAll(was: map<string, (Job, nat)>, gone: set<string>)
    ensures Without(was, gone) == was - gone
  {
  }

  lemma WithoutOneMore(was: map<string, (Job, nat)>, gone: set<string>, id: string)
    requires id in was && id !in gone
    ensures id in Without(was, gone) && Without(was, gone)[id] == was[id]
    ensures Without(was, gone) - {id} == Without(was, gone + {id})
  {
  }

  lemma NoneDropped(was: map<string, (Job, nat)>)
    ensures Dropped(was, {}, [])
  {
  }

  lemma OneMoreDropped(was: map<string, (Job, nat)>, gone: set<string>, jobs: seq<Job>, id: string, job: Job)
    requires Dropped(was, gone, jobs) && id in was && id !in gone
    requires job == was[id].0.(status := TimedOut) && job.jobId == id
    ensures Dropped(was, gone + {id}, jobs + [job])
  {
  }

  class InferenceScheduler {
    var pendingJobs: map<string, Job>
    /** Running jobs with the instant they were started or claimed at. */
    var runningJobs: map<string, (Job, nat)>
    var completed: map<string, string>
    var whitelist: set<string>
    const capabilities: Capabilities
    const nodeId: string

    /** How often each id was accepted, pulled, claimed by another node, finished and timed out. */
    ghost var accepted: multiset<string>
    ghost var pulled: multiset<string>
    ghost var claimed: multiset<string>
    ghost var finished: multiset<string>
    ghost var timedOut: multiset<string>

    ghost predicate Valid()
      reads this`pendingJobs, this`runningJobs, this`whitelist, this`accepted, this`pulled, this`claimed,
            this`finished, this`timedOut
    {
      && pendingJobs.Keys !! runningJobs.Keys
      && (forall id :: id in pendingJobs ==> pendingJobs[id].jobId == id && pendingJobs[id].modelName in whitelist)
      && (forall id :: id in runningJobs ==> runningJobs[id].0.jobId == id && runningJobs[id].0.status.Running?
                                             && runningJobs[id].0.modelName in whitelist)
      && Conserved()
    }

    /** Every accepted add is still pending, or was taken exactly once; every taken job is still running, or ended
        exactly once. */
    ghost predicate Conserved()
      reads this`pendingJobs, this`runningJobs, this`accepted, this`pulled, this`claimed, this`finished, this`timedOut
    {
      forall id ::
        && accepted[id] == pulled[id] + claimed[id] + (if id in pendingJobs then 1 else 0)
        && pulled[id] + claimed[id] == finished[id] + timedOut[id] + (if id in runningJobs then 1 else 0)
    }

    constructor (nodeId: string, capabilities: Capabilities)
      ensures Valid() && pendingJobs == map[] && runningJobs == map[]
      ensures whitelist == {"mobilenet_v4", "paddleocr_det", "paddleocr_rec_en", "paddleocr_en", "yolo11n", "segformer",
                            "silero_vad", "dtln_denoise"}
      ensures this.nodeId == nodeId && this.capabilities == capabilities
    {
      this.nodeId, this.capabilities := nodeId, capabilities;
      pendingJobs, runningJobs, completed := map[], map[], map[];
      whitelist := {"mobilenet_v4", "paddleocr_det", "paddleocr_rec_en", "paddleocr_en", "yolo11n", "segformer",
                    "silero_vad", "dtln_denoise"};
      accepted, pulled, claimed := multiset{}, multiset{}, multiset{};
      finished, timedOut := multiset{}, multiset{};
    }

    method AddWhitelistedModels(models: set<string>)
      requires Valid()
      modifies this`whitelist
      ensures Valid() && whitelist == old(whitelist) + models
    {
      whitelist := whitelist + models;
    }

    /** Refuses models that are not whitelisted, and silently ignores ids that are pending or running. */
    method AddJob(job: Job) returns (ok: bool)
      requires Valid()
      modifies this`pendingJobs, this`accepted
      ensures Valid() && ok == (job.modelName in whitelist)
      ensures var added := ok && job.jobId !in old(pendingJobs) && job.jobId !in runningJobs;
              && pendingJobs == (if added then old(pendingJobs)[job.jobId := job] else old(pendingJobs))
              && accepted == (if added then old(accepted) + multiset{job.jobId} else old(accepted))
    {
      if job.modelName !in whitelist {
        return false;
      }
      ok := true;
      if job.jobId !in pendingJobs && job.jobId !in runningJobs {
        pendingJobs := pendingJobs[job.jobId := job];
        accepted := accepted + multiset{job.jobId};
      }
    }

    /** The first best suitable job, in whatever order the pending jobs come. */
    method FindBest(now: int) returns (best: Option<string>)
      requires Valid()
      ensures best.None? <==> forall id :: id in pendingJobs ==> !Suitable(capabilities, pendingJobs[id], now)
      ensures best.Some? ==>
        && best.value in pendingJobs && Suitable(capabilities, pendingJobs[best.value], now)
        && forall id :: id in pendingJobs && Suitable(capabilities, pendingJobs[id], now) ==>
             Score(capabilities, pendingJobs[id], now) <= Score(capabilities, pendingJobs[best.value], now)
    {
      best := None;
      var remaining := pendingJobs.Keys;
      while remaining != {}
        invariant remaining <= pendingJobs.Keys
        invariant best.None? ==>
          forall id :: id in pendingJobs && id !in remaining ==> !Suitable(capabilities, pendingJobs[id], now)
        invariant best.Some? ==>
          && best.value in pendingJobs && Suitable(capabilities, pendingJobs[best.value], now)
          && forall id :: id in pendingJobs && id !in remaining && Suitable(capabilities, pendingJobs[id], now) ==>
               Score(capabilities, pendingJobs[id], now) <= Score(capabilities, pendingJobs[best.value], now)
        decreases |remaining|
      {
        var id :| id in remaining;
        var job := pendingJobs[id];
        if !IsExpired(job, now) {
          var score := Score(capabilities, job, now);
          if score > 0.0 && (best.None? || score > Score(capabilities, pendingJobs[best.value], now)) {
            best := Some(id);
          }
        }
        remaining := remaining - {id};
      }
    }

    /** Moves a pending job to the running ones. */
    method Claim(id: string, node: string, now: int, instant: nat) returns (job: Job)
      requires Valid() && id in pendingJobs
      modifies this`pendingJobs, this`runningJobs
      ensures job == old(pendingJobs[id]).(status := Running(node, now))
      ensures pendingJobs == old(pendingJobs) - {id} && runningJobs == old(runningJobs)[id := (job, instant)]
    {
      job := pendingJobs[id].(status := Running(node, now));
      pendingJobs := pendingJobs - {id};
      runningJobs := runningJobs[id := (job, instant)];
    }

    /** Starts a pending job on this node. */
    method Start(id: string, now: int, instant: nat) returns (job: Job)
      requires Valid() && id in pendingJobs
      modifies this`pendingJobs, this`runningJobs, this`pulled
      ensures Valid() && job == old(pendingJobs[id]).(status := Running(nodeId, now)) && job.jobId == id
      ensures pendingJobs == old(pendingJobs) - {id} && runningJobs == old(runningJobs)[id := (job, instant)]
      ensures pulled == old(pulled) + multiset{id}
    {
      job := Claim(id, nodeId, now, instant);
      pulled := pulled + multiset{id};
    }

    /** Takes a best suitable job, if there is one, and starts it here. */
    method PullNextJob(now: int, instant: nat) returns (r: Option<Job>)
      requires Valid()
      modifies this`pendingJobs, this`runningJobs, this`pulled
      ensures Valid()
      ensures r.None? <==> forall id :: id in old(pendingJobs) ==> !Suitable(capabilities, old(pendingJobs)[id], now)
      ensures r.None? ==> pendingJobs == old(pendingJobs) && runningJobs == old(runningJobs) && pulled == old(pulled)
      ensures r.Some? ==>
        var id := r.value.jobId;
        && id in old(pendingJobs) && r.value == old(pendingJobs)[id].(status := Running(nodeId, now))
        && !IsExpired(old(pendingJobs)[id], now)
        && (forall other :: other in old(pendingJobs) && !IsExpired(old(pendingJobs)[other], now) ==>
              Score(capabilities, old(pendingJobs)[other], now) <= Score(capabilities, old(pendingJobs)[id], now))
        && pendingJobs == old(pendingJobs) - {id} && runningJobs == old(runningJobs)[id := (r.value, instant)]
        && pulled == old(pulled) + multiset{id}
    {
      hide IsExpired, Score, Valid;
      var best := FindBest(now);
      if best.None? {
        return None;
      }
      forall other | other in pendingJobs && !IsExpired(pendingJobs[other], now)
        ensures Suitable(capabilities, pendingJobs[other], now)
      {
        ScorePositive(capabilities, pendingJobs[other], now);
        ScorePositive(capabilities, pendingJobs[best.value], now);
      }
      var job := Start(best.value, now, instant);
      return Some(job);
    }

    /** Another node has claimed the job. */
    method MarkClaimed(id: string, node: string, now: int, instant: nat)
      requires Valid()
      modifies this`pendingJobs, this`runningJobs, this`claimed
      ensures Valid() && pendingJobs == old(pendingJobs) - {id}
      ensures id !in old(pendingJobs) ==> runningJobs == old(runningJobs) && claimed == old(claimed)
      ensures id in old(pendingJobs) ==>
                var job := old(pendingJobs)[id].(status := Running(node, now));
                claimed == old(claimed) + multiset{id} && runningJobs == old(runningJobs)[id := (job, instant)]
    {
      if id in pendingJobs {
        var job := Claim(id, node, now, instant);
        claimed := claimed + multiset{id};
      }
    }

    /** Takes a job off the running ones; the caller records how it ended. */
    method End(id: string) returns (job: Job)
      requires id in runningJobs
      modifies this`runningJobs
      ensures job == old(runningJobs[id].0) && runningJobs == old(runningJobs) - {id}
    {
      job := runningJobs[id].0;
      runningJobs := runningJobs - {id};
    }

    /** Drops a running job as timed out. */
    method TimeOut(id: string) returns (job: Job)
      requires Valid() && id in runningJobs
      modifies this`runningJobs, this`timedOut
      ensures Valid() && job == old(runningJobs[id].0).(status := TimedOut)
      ensures runningJobs == old(runningJobs) - {id} && job.jobId == id
    {
      job := End(id);
      job := job.(status := TimedOut);
      timedOut := timedOut + multiset{id};
    }

    /** Drops one more job and adds it to those dropped so far. */
    method DropOne(id: string, jobs: seq<Job>, ghost was: map<string, (Job, nat)>, ghost gone: set<string>)
      returns (more: seq<Job>)
      requires Valid() && runningJobs == Without(was, gone) && Dropped(was, gone, jobs) && id in was && id !in gone
      modifies this`runningJobs, this`timedOut
      ensures Valid() && runningJobs == Without(was, gone + {id}) && Dropped(was, gone + {id}, more)
    {
      hide *;
      WithoutOneMore(was, gone, id);
      var job := TimeOut(id);
      OneMoreDropped(was, gone, jobs, id, job);
      more := jobs + [job];
    }

    method Finish(id: string)
      requires Valid() && id in runningJobs
      modifies this`runningJobs, this`finished
      ensures Valid() && runningJobs == old(runningJobs) - {id} && finished == old(finished) + multiset{id}
    {
      var job := End(id);
      finished := finished + multiset{id};
    }

    /** A result ends the running job, if it is still running, and is kept in any case. */
    method RecordResult(id: string, result: string)
      requires Valid()
      modifies this`runningJobs, this`completed, this`finished
      ensures Valid()
      ensures runningJobs == old(runningJobs) - {id} && completed == old(completed)[id := result]
      ensures finished == if id in old(runningJobs) then old(finished) + multiset{id} else old(finished)
    {
      hide Valid;
      if id in runningJobs {
        Finish(id);
      }
      completed := completed[id := result];
    }

    predicate Overdue(id: string, instant: nat)
      requires id in runningJobs
      reads this`runningJobs
    {
      ElapsedMs(runningJobs[id].1, instant) > runningJobs[id].0.maxLatencyMs
    }

    function OverdueJobs(instant: nat): (ids: set<string>)
      reads this`runningJobs
      ensures ids <= runningJobs.Keys
    {
      set id | id in runningJobs && Overdue(id, instant)
    }

    lemma OverdueExactly(instant: nat)
      ensures forall id :: id in runningJobs && instant - runningJobs[id].1 < 1_000_000 * TWO_TO_THE_64 ==>
        var (job, since) := runningJobs[id];
        (id in OverdueJobs(instant) <==> instant - since >= (job.maxLatencyMs + 1) * 1_000_000)
    {
      forall id | id in runningJobs && instant - runningJobs[id].1 < 1_000_000 * TWO_TO_THE_64
        ensures var (job, since) := runningJobs[id];
                id in OverdueJobs(instant) <==> instant - since >= (job.maxLatencyMs + 1) * 1_000_000
      {
        ElapsedExactly(runningJobs[id].1, instant, runningJobs[id].0.maxLatencyMs);
        hide ElapsedMs;
      }
    }

    /** Drops the given running jobs, in some order. */
    method DropAll(ids: set<string>) returns (jobs: seq<Job>)
      requires Valid() && ids <= runningJobs.Keys
      modifies this`runningJobs, this`timedOut
      ensures Valid() && runningJobs == Without(old(runningJobs), ids) && Dropped(old(runningJobs), ids, jobs)
    {
      hide *;
      ghost var was := runningJobs;
      jobs := [];
      var remaining := ids;
      assert ids - remaining == {};
      NoneDropped(was);
      WithoutNone(was);
      while remaining != {}
        invariant Valid() && remaining <= ids
        invariant runningJobs == Without(was, ids - remaining) && Dropped(was, ids - remaining, jobs)
        decreases |remaining|
      {
        var id :| id in remaining;
        assert ids - (remaining - {id}) == ids - remaining + {id};
        jobs := DropOne(id, jobs, was, ids - remaining);
        remaining := remaining - {id};
      }
      assert ids - remaining == ids;
    }

    /** Drops exactly the overdue running jobs and returns each of them once, as timed out; they do not become pending
        again. */
    method CheckTimeouts(instant: nat) returns (jobs: seq<Job>)
      requires Valid()
      modifies this`runningJobs, this`timedOut
      ensures Valid() && runningJobs == old(runningJobs) - old(OverdueJobs(instant))
      ensures Dropped(old(runningJobs), old(OverdueJobs(instant)), jobs)
      ensures forall id :: id in old(runningJobs) && instant - old(runningJobs)[id].1 < 1_000_000 * TWO_TO_THE_64 ==>
        var (job, since) := old(runningJobs)[id];
        (id !in runningJobs <==> instant - since >= (job.maxLatencyMs + 1) * 1_000_000)
    {
      OverdueExactly(instant);
      hide *;
      var expired := OverdueJobs(instant);
      jobs := DropAll(expired);
      WithoutAll(old(runningJobs), expired);
    }

    /** Running jobs are found before pending ones. */
    method GetJob(id: string) returns (r: Option<Job>)
      requires Valid()
      ensures r == if id in runningJobs then Some(runningJobs[id].0)
                   else if id in pendingJobs then Some(pendingJobs[id]) else None
      ensures r.Some? ==> r.value.jobId == id && (r.value.status.Running? || id in pendingJobs)
    {
      if id in runningJobs {
        return Some(runningJobs[id].0);
      }
      if id in pendingJobs {
        return Some(pendingJobs[id]);
      }
      return None;
    }
  }
}
