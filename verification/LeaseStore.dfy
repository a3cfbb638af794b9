/** The leased job store behind the queue: claims fence every later call by a lock
    token, and expired leases are recovered. */
module LeaseStore {

  type JobId = string

  datatype Job =
    | Pending
    | Active(token: nat, expires: nat)
    | Completed
    | Failed

  type Store = map<JobId, Job>

  predicate Holds(store: Store, id: JobId, token: nat)
  {
    id in store && store[id].Active? && store[id].token == token
  }

  predicate IsOver(job: Job)
  {
    job.Completed? || job.Failed?
  }

  function Claim(store: Store, id: JobId, token: nat, expires: nat): Store
  {
    if id in store && store[id].Pending? then store[id := Active(token, expires)] else store
  }

  /** A renewal of the token's own lease; anything else is refused. */
  function Renew(store: Store, id: JobId, token: nat, expires: nat): Store
  {
    if Holds(store, id, token) then store[id := Active(token, expires)] else store
  }

  /** Complete, fail, retry or release: the holder's lease ends and the job becomes `after`;
      a job that is over may be deleted instead. */
  function Finish(store: Store, id: JobId, token: nat, after: Job, discard: bool): Store
  {
    if !Holds(store, id, token) then store
    else if discard && IsOver(after) then store - {id}
    else store[id := after]
  }

  predicate Expired(store: Store, id: JobId, now: nat)
  {
    id in store && store[id].Active? && store[id].expires <= now
  }

  /** Take an expired lease away: back to pending, or failed once too often stalled. */
  function Recover(store: Store, id: JobId, now: nat, giveUp: bool): Store
  {
    if Expired(store, id, now) then store[id := if giveUp then Failed else Pending] else store
  }

  // ----- Heartbeats (durations in nanoseconds)

  const ONE_MILLISECOND := 1_000_000

  function HeartbeatInterval(lease: nat): nat
  {
    if lease / 3 == 0 then ONE_MILLISECOND else lease / 3
  }

  /** Three heartbeats fit into a lease exactly when it is at least 3 ns long; a shorter
      lease is over before the first heartbeat. */
  lemma ThreeHeartbeatsPerLease(lease: nat)
    ensures HeartbeatInterval(lease) > 0
    ensures 3 * HeartbeatInterval(lease) <= lease <==> lease >= 3
    ensures lease < 3 ==> lease < HeartbeatInterval(lease)
    ensures lease >= 3 ==> lease < 3 * HeartbeatInterval(lease) + 3
  {
  }
}
