/** The rate-limit guard: poll the rate-limit endpoint, sleep while fewer than
    100 requests remain, exit on a failed poll, return once 100 or more remain. */
module RateLimit {
  import opened GitHub

  const THRESHOLD := 100

  /** A reply after which the guard sleeps a minute and polls again. */
  predicate Sleeps(reply: Response<int>) {
    reply.status == OK && reply.body < THRESHOLD
  }

  /** The end of one guard call after `polls` polls: it returned, it exited,
      or it was still waiting when the replies ran out. */
  datatype Outcome = Released(polls: nat) | Failed(polls: nat) | Waiting(polls: nat)

  /** The guard's end when the polls from index `i` on receive `replies[i..]`. */
  function GuardFrom(replies: seq<Response<int>>, i: nat): (g: Outcome)
    requires i <= |replies|
    decreases |replies| - i
    ensures i <= g.polls <= |replies|
    ensures g.Waiting? ==> g.polls == |replies|
    ensures !g.Waiting? ==> i < g.polls
  {
    if i == |replies| then Waiting(i)
    else if replies[i].status != OK then Failed(i + 1)
    else if replies[i].body >= THRESHOLD then Released(i + 1)
    else GuardFrom(replies, i + 1)
  }

  /** The guard returns after poll n only if reply n answered 200 with at least
      100 remaining, exits after poll n only if reply n was not a 200, and in
      both cases every earlier reply was a 200 below 100; it is still waiting
      exactly when every reply was a 200 below 100. */
  lemma {:induction false} GuardFromSpec(replies: seq<Response<int>>, i: nat)
    requires i <= |replies|
    decreases |replies| - i
    ensures var g := GuardFrom(replies, i);
      && (g.Released? ==>
        i < g.polls && replies[g.polls - 1].status == OK && replies[g.polls - 1].body >= THRESHOLD
        && forall k :: i <= k < g.polls - 1 ==> Sleeps(replies[k]))
      && (g.Failed? ==>
        i < g.polls && replies[g.polls - 1].status != OK
        && forall k :: i <= k < g.polls - 1 ==> Sleeps(replies[k]))
      && (g.Waiting? <==> forall k :: i <= k < |replies| ==> Sleeps(replies[k]))
  {
    if i < |replies| && Sleeps(replies[i]) {
      GuardFromSpec(replies, i + 1);
    }
  }

  /** The guard's end for a whole sequence of replies. */
  function Guard(replies: seq<Response<int>>): Outcome {
    GuardFrom(replies, 0)
  }

  /** A guard call releases its caller exactly when some reply reports 100 or
      more remaining and every earlier reply was a successful one below 100. */
  lemma {:induction false} ReleasedIff(replies: seq<Response<int>>, n: nat)
    requires 0 < n <= |replies|
    ensures Guard(replies) == Released(n) <==>
      replies[n - 1].status == OK && replies[n - 1].body >= THRESHOLD
      && forall k :: 0 <= k < n - 1 ==> Sleeps(replies[k])
  {
    GuardFromSpec(replies, 0);
  }

  /** The rate-limit endpoint: every reply it gives, in order, and how many
      of them it has given so far. */
  class Endpoint {
    var replies: seq<Response<int>>
    var next: nat

    /** The next poll is answered by a reply of the sequence, or finds it spent. */
    ghost predicate Valid()
      reads this
    {
      next <= |replies|
    }

    constructor (replies: seq<Response<int>>)
      ensures Valid() && this.replies == replies && next == 0
    {
      this.replies := replies;
      next := 0;
    }

    /** Polls until a reply reports at least 100 remaining (released), a poll
        fails (the script exits), or the replies run out while waiting. */
    method HoldUntilRateLimitSuccess() returns (g: Outcome)
      requires Valid()
      modifies this
      ensures Valid() && replies == old(replies)
      ensures g == GuardFrom(replies, old(next)) && next == g.polls
    {
      var i := next;
      while i < |replies|
        invariant old(next) <= i <= |replies|
        invariant GuardFrom(replies, i) == GuardFrom(replies, old(next))
      {
        var reply := replies[i];
        i := i + 1;
        if reply.status != OK {
          g := Failed(i);
          next := i;
          return;
        }
        if reply.body >= THRESHOLD {
          g := Released(i);
          next := i;
          return;
        }
      }
      g := Waiting(i);
      next := i;
    }
  }

  /** What a caller of the guard does with its end: go on with `next`, exit
      with the rate-limit diagnostic, or stay waiting. */
  function After<T>(g: Outcome, next: Step<T>): Step<T> {
    match g
    case Released(_) => next
    case Failed(_) => Fatal(ERR_RATE_LIMIT)
    case Waiting(_) => Stalled
  }
}
