/**
  The service's fetcher (`fetcher_loop` of prover/prover_airbender/src/service.rs): it picks blocks
  in order, retries a failed fetch, gives a block up after five attempts, and hands fetched blocks
  to the prover's queue. The chain, the node and the queue answer as they like.
  */
module Fetcher {
  import opened Basics

  const MAX_FETCH_ATTEMPTS: nat := 5

  datatype Config = Config(
    proveEvery: Option<nat>, executeEvery: Option<nat>, saveAll: bool, client: bool, endBlock: Option<nat>, maxLag: nat)

  /** Every `n`-th block; zero and none match nothing. */
  predicate Matches(every: Option<nat>, block: nat) {
    every.Some? && every.value != 0 && block % every.value == 0
  }

  predicate Proves(c: Config, block: nat) { Matches(c.proveEvery, block) }

  predicate Wanted(c: Config, block: nat) {
    Proves(c, block) || Matches(c.executeEvery, block) || c.saveAll
  }

  /** The block is to be saved, proved or executed: every block, or one at the interval of either. */
  ghost predicate Asked(c: Config, block: nat) {
    || c.saveAll
    || (c.proveEvery.Some? && c.proveEvery.value > 0 && block % c.proveEvery.value == 0)
    || (c.executeEvery.Some? && c.executeEvery.value > 0 && block % c.executeEvery.value == 0)
  }

  /** A fetch and whether it succeeded. */
  datatype Try = Try(block: nat, ok: bool)

  ghost predicate Increasing(s: seq<nat>) {
    forall i, j :: 0 <= i < j < |s| ==> s[i] < s[j]
  }

  ghost predicate AllBelow(s: seq<nat>, limit: nat) {
    forall i :: 0 <= i < |s| ==> s[i] < limit
  }

  /** The last `n` tries are failed tries of the block, and no earlier try is of it or of a later one. */
  ghost predicate FailedLast(tries: seq<Try>, block: nat, n: nat) {
    && n <= |tries|
    && (forall i :: 0 <= i < |tries| - n ==> tries[i].block < block)
    && (forall i :: |tries| - n <= i < |tries| ==> tries[i] == Try(block, false))
  }

  /** The block was tried exactly five times, one after another, and failed each time. */
  ghost predicate GivenUp(tries: seq<Try>, block: nat) {
    exists i :: 0 <= i && FiveFrom(tries, block, i)
  }

  ghost predicate FiveFrom(tries: seq<Try>, block: nat, i: int) {
    && 0 <= i <= |tries| - 5
    && forall k :: 0 <= k < |tries| ==>
         if i <= k < i + 5 then tries[k] == Try(block, false) else tries[k].block != block
  }

  /** Later tries of other blocks leave a given-up block given up. */
  lemma StaysGivenUp(tries: seq<Try>, block: nat, t: Try)
    requires GivenUp(tries, block) && t.block != block
    ensures GivenUp(tries + [t], block)
  {
    var i :| 0 <= i && FiveFrom(tries, block, i);
    assert FiveFrom(tries + [t], block, i);
  }

  lemma GivesUp(tries: seq<Try>, block: nat)
    requires FailedLast(tries, block, MAX_FETCH_ATTEMPTS)
    ensures GivenUp(tries, block)
  {
    assert FiveFrom(tries, block, |tries| - MAX_FETCH_ATTEMPTS);
  }

  /** Each wanted block from `start` on is in the queue or given up. */
  ghost predicate Settled(c: Config, queue: seq<nat>, tries: seq<Try>, start: nat, next: nat) {
    forall b :: start <= b < next && Wanted(c, b) ==> b in queue || GivenUp(tries, b)
  }

  lemma SettledByTry(c: Config, queue: seq<nat>, tries: seq<Try>, start: nat, next: nat, t: Try)
    requires t.block >= next
    ensures Settled(c, queue, tries, start, next) ==> Settled(c, queue, tries + [t], start, next)
  {
    forall b | start <= b < next && GivenUp(tries, b)
      ensures GivenUp(tries + [t], b)
    {
      StaysGivenUp(tries, b, t);
    }
  }

  /** A further try of the next block; and the tries once it is passed. */
  lemma OneMoreTry(tries: seq<Try>, b: nat, n: nat, ok: bool)
    requires FailedLast(tries, b, n)
    ensures !ok ==> FailedLast(tries + [Try(b, false)], b, n + 1)
    ensures FailedLast(tries + [Try(b, ok)], b + 1, 0)
    ensures FailedLast(tries, b + 1, 0)
  {
  }

  lemma OneMoreBlock(s: seq<nat>, b: nat)
    requires Increasing(s) && AllBelow(s, b)
    ensures Increasing(s + [b]) && AllBelow(s + [b], b + 1) && AllBelow(s, b + 1)
  {
  }

  lemma StillBelow(s: seq<nat>, b: nat)
    requires AllBelow(s, b)
    ensures AllBelow(s, b + 1) && b !in s
  {
  }

  /** Every block in the queue was wanted and fetched. */
  ghost predicate Earned(c: Config, queue: seq<nat>, tries: seq<Try>) {
    forall i :: 0 <= i < |queue| ==> Wanted(c, queue[i]) && Try(queue[i], true) in tries
  }

  /** A settled queue holds exactly the blocks asked for and not given up. */
  lemma QueueIs(c: Config, queue: seq<nat>, tries: seq<Try>, start: nat, next: nat)
    requires Settled(c, queue, tries, start, next) && Earned(c, queue, tries)
    ensures forall b :: start <= b < next ==> (b in queue <==> Asked(c, b) && !GivenUp(tries, b))
    ensures forall b :: b in queue ==> Asked(c, b)
  {
    forall b | b in queue
      ensures Asked(c, b) && !GivenUp(tries, b)
    {
      var i :| 0 <= i < |queue| && queue[i] == b;
      assert Wanted(c, b) && Try(b, true) in tries;
    }
    assert forall b :: start <= b < next && Asked(c, b) ==> Wanted(c, b);
  }

  lemma EarnedByTry(c: Config, queue: seq<nat>, tries: seq<Try>, t: Try)
    requires Earned(c, queue, tries)
    ensures Earned(c, queue, tries + [t])
    ensures t.ok && Wanted(c, t.block) ==> Earned(c, queue + [t.block], tries + [t])
  {
    assert (tries + [t])[|tries|] == t;
    forall x | x in tries
      ensures x in tries + [t]
    {
      var i :| 0 <= i < |tries| && tries[i] == x;
      assert (tries + [t])[i] == x;
    }
  }

  /** What one block of a pass comes to. */
  datatype Step = Handled | Retry | Stopped

  /** A failed fetch is retried until the fifth; the loop stops where the worker has dropped the queue. */
  function Outcome(c: Config, b: nat, failures: nat, fetched: bool, sent: bool): Step {
    if !Wanted(c, b) then Handled
    else if fetched then if sent then Handled else Stopped
    else if failures + 1 < MAX_FETCH_ATTEMPTS then Retry
    else Handled
  }

  class Loop {
    const config: Config
    var next: nat
    var failures: nat
    /** The block whose queued post was sent and whose fetch is to be retried. */
    var retried: Option<nat>
    var caughtUp: bool
    var queue: seq<nat>
    ghost var start: nat
    ghost var skipped: bool
    ghost var posts: seq<nat>
    ghost var tries: seq<Try>

    /**
      The invariant of every run: the queue and the queued posts go up strictly, the counter is
      the number of failures in a row of the next block, its post is remembered, and without a
      skip to the tip every wanted block passed is in the queue or was given up.
      */
    ghost predicate Valid()
      reads this
    {
      && Increasing(queue) && AllBelow(queue, next)
      && Increasing(posts) && AllBelow(posts, next + 1)
      && (next in posts <==> retried.Some?) && (retried.Some? ==> retried.value == next)
      && failures < MAX_FETCH_ATTEMPTS && FailedLast(tries, next, failures)
      && (failures > 0 ==> Wanted(config, next))
      && (retried.Some? ==> failures > 0 && Proves(config, next))
      && start <= next && (!skipped ==> Settled(config, queue, tries, start, next))
      && (config.endBlock.Some? ==> !skipped) && Earned(config, queue, tries)
    }

    constructor (config: Config, startBlock: Option<nat>, tip: nat)
      ensures Valid() && this.config == config && queue == [] && posts == [] && tries == []
      ensures next == start == (if startBlock.Some? then startBlock.value else tip + 1)
    {
      this.config := config;
      next := if startBlock.Some? then startBlock.value else tip + 1;
      start := if startBlock.Some? then startBlock.value else tip + 1;
      failures, retried, caughtUp := 0, None, startBlock.None?;
      queue, posts, tries, skipped := [], [], [], false;
    }

    /** The queued post of a picked block: the one already sent, or a new one. */
    method Post(b: nat) returns (queued: Option<nat>)
      requires Valid() && b == next
      modifies `retried, `posts
      ensures retried == None
      ensures Increasing(posts) && AllBelow(posts, b + 1)
      ensures b in posts <==> queued.Some?
      ensures queued.Some? ==> queued.value == b && Proves(config, b)
      ensures posts == old(posts) + (if Proves(config, b) && config.client && old(retried) != Some(b) then [b] else [])
    {
      queued := None;
      if Proves(config, b) {
        if retried == Some(b) {
          queued := Some(b);
        } else if config.client {
          posts := posts + [b];
          assert posts[|posts| - 1] == b;
          queued := Some(b);
        }
        retried := None;
      }
    }

    /** One block of a pass. */
    method Pick(b: nat, fetched: bool, sent: bool) returns (step: Step)
      requires Valid() && b == next
      modifies this
      ensures Increasing(queue) && Increasing(posts) && start == old(start) && skipped == old(skipped)
      ensures !step.Stopped? ==> Valid()
      ensures step == Outcome(config, b, old(failures), fetched, sent)
      ensures step.Handled? ==> next == b + 1 && failures == 0
      ensures step.Retry? ==> next == b && failures == old(failures) + 1
      ensures queue == old(queue) + (if Wanted(config, b) && fetched && sent then [b] else [])
      ensures tries == old(tries) + (if Wanted(config, b) then [Try(b, fetched)] else [])
      ensures posts == old(posts) + (if Proves(config, b) && config.client && old(retried) != Some(b) then [b] else [])
      ensures caughtUp == (old(caughtUp) || (Wanted(config, b) && !fetched && step.Handled?))
      ensures caughtUp && !old(caughtUp) ==> GivenUp(tries, b)
    {
      hide Settled, FailedLast, Increasing, AllBelow, GivenUp, Wanted, Earned;
      OneMoreTry(tries, b, failures, fetched);
      OneMoreBlock(queue, b);
      StillBelow(posts, b + 1);
      if !Wanted(config, b) {
        SettledUnwanted(config, queue, tries, start, b);
        next := b + 1;
        return Handled;
      }
      SettledByTry(config, queue, tries, start, b, Try(b, fetched));
      EarnedByTry(config, queue, tries, Try(b, fetched));
      var queued := Post(b);
      StillBelow(posts, b + 1);
      tries := tries + [Try(b, fetched)];
      if !fetched {
        failures := failures + 1;
        if failures < MAX_FETCH_ATTEMPTS {
          retried := queued;
          return Retry;
        }
        GivesUp(tries, b);
        SettledMore(config, queue, queue, tries, start, b);
        failures, next, caughtUp := 0, b + 1, true;
        return Handled;
      }
      failures := 0;
      if !sent { return Stopped; }
      SettledMore(config, queue, queue + [b], tries, start, b);
      queue, next := queue + [b], b + 1;
      step := Handled;
    }

    /** The fetcher has reached the tip once, and is now more than the allowed lag behind it. */
    ghost predicate Lagging(latest: nat)
      reads this
    {
      caughtUp && config.endBlock.None? && config.maxLag > 0 && latest > next + config.maxLag
    }

    ghost predicate GaveOneUp(from: nat)
      reads this
    {
      exists b :: from <= b < next && GivenUp(tries, b)
    }

    /** One pass up to `latest`, after the skip to the tip where the fetcher has fallen too far behind it. */
    method Pass(latest: nat, fetched: nat -> bool, sent: nat -> bool) returns (stopped: bool)
      requires Valid()
      modifies this
      ensures Increasing(queue) && Increasing(posts) && start == old(start)
      ensures !stopped ==> Valid()
      ensures skipped == old(skipped || Lagging(latest))
      ensures !stopped && next <= latest ==> failures > 0
      ensures old(caughtUp) || (!stopped && next > latest) ==> caughtUp
      ensures !stopped && caughtUp && !old(caughtUp) && next <= latest ==> GaveOneUp(old(next))
      ensures !stopped && config.endBlock.Some? && old(next) <= latest ==>
        next > old(next) || (next == old(next) && failures > old(failures))
      ensures !stopped && config.endBlock.Some? ==> next <= latest + 1 || next == old(next)
    {
      hide Settled, FailedLast, Increasing, AllBelow, GivenUp, Wanted, Earned, Outcome;
      stopped := false;
      var lag := if latest > next then latest - next else 0;
      assert Lagging(latest) <==> caughtUp && config.endBlock.None? && config.maxLag > 0 && lag > config.maxLag;
      if caughtUp && config.endBlock.None? && config.maxLag > 0 && lag > config.maxLag {
        SkipTo(latest);
      }
      var b := next;
      while b <= latest
        invariant Valid() && b == next >= old(next) && start == old(start) && skipped == old(skipped || Lagging(latest))
        invariant (old(caughtUp) ==> caughtUp) && (caughtUp && !old(caughtUp) ==> GaveOneUp(old(next)))
        invariant config.endBlock.Some? ==> (next == old(next) && failures == old(failures)) || (old(next) < next <= latest + 1)
        decreases latest + 1 - b
      {
        ghost var before, gaveUp := tries, caughtUp && !old(caughtUp);
        var step := Pick(b, fetched(b), sent(b));
        if gaveUp { StillGivenUp(old(next), b, before, tries, fetched(b)); }
        if step.Stopped? { return true; }
        if step.Retry? { break; }
        b := b + 1;
      }
      if next > latest { caughtUp := true; }
    }

    method SkipTo(latest: nat)
      requires Valid() && latest > next && config.endBlock.None?
      modifies this
      ensures Valid() && next == latest && start == old(start) && skipped
      ensures queue == old(queue) && posts == old(posts) && tries == old(tries) && caughtUp == old(caughtUp)
    {
      assert forall i :: 0 <= i < |tries| ==> tries[i].block < latest;
      next, failures, retried, skipped := latest, 0, None, true;
    }

    /**
      A run with an end block: it ends, and unless the worker dropped the queue every wanted block
      from the start to the end is in the queue, once, or failed five times in a row.
      */
    method RunToEnd(fetched: (nat, nat) -> bool, sent: (nat, nat) -> bool) returns (stopped: bool)
      requires Valid() && config.endBlock.Some? && queue == [] && next == start
      modifies this
      ensures Increasing(queue) && Increasing(posts)
      ensures !stopped ==> start == old(start) && forall b :: start <= b <= config.endBlock.value ==>
        (b in queue <==> Asked(config, b) && !GivenUp(tries, b))
      ensures !stopped ==> forall b :: b in queue ==> Asked(config, b)
    {
      stopped := false;
      var end := config.endBlock.value;
      var pass: nat := 0;
      while next <= end
        invariant Valid() && start == old(start)
        decreases if next <= end then end + 1 - next else 0, MAX_FETCH_ATTEMPTS - failures
      {
        stopped := Pass(end, (b: nat) => fetched(pass, b), (b: nat) => sent(pass, b));
        if stopped { return; }
        pass := pass + 1;
      }
      EndSettled(config, queue, tries, start, end + 1, next);
      QueueIs(config, queue, tries, start, end + 1);
    }

    /** Any number of passes, with or without an end block, whatever tip each of them sees. */
    method RunFor(passes: nat, latest: nat -> Option<nat>, fetched: (nat, nat) -> bool, sent: (nat, nat) -> bool) returns (stopped: bool)
      requires Valid()
      modifies this
      ensures Increasing(queue) && Increasing(posts) && (!stopped ==> Valid())
    {
      stopped := false;
      for pass := 0 to passes
        invariant Valid() && !stopped
      {
        if config.endBlock.Some? && next > config.endBlock.value { return; }
        var tip := if config.endBlock.Some? then config.endBlock else latest(pass);
        if tip.Some? {
          stopped := Pass(tip.value, (b: nat) => fetched(pass, b), (b: nat) => sent(pass, b));
          if stopped { return; }
        }
      }
    }
  }

  lemma StillGivenUp(from: nat, next: nat, before: seq<Try>, after: seq<Try>, fetched: bool)
    requires exists x :: from <= x < next && GivenUp(before, x)
    requires after == before || after == before + [Try(next, fetched)]
    ensures exists x :: from <= x < next && GivenUp(after, x)
  {
    var x :| from <= x < next && GivenUp(before, x);
    StaysGivenUp(before, x, Try(next, fetched));
    assert GivenUp(after, x);
  }

  lemma EndSettled(c: Config, queue: seq<nat>, tries: seq<Try>, start: nat, limit: nat, next: nat)
    requires Settled(c, queue, tries, start, next) && limit <= next
    ensures Settled(c, queue, tries, start, limit)
  {
  }

  lemma SettledUnwanted(c: Config, queue: seq<nat>, tries: seq<Try>, start: nat, b: nat)
    requires !Wanted(c, b)
    ensures !Proves(c, b)
    ensures Settled(c, queue, tries, start, b) ==> Settled(c, queue, tries, start, b + 1)
  {
  }

  lemma SettledMore(c: Config, queue: seq<nat>, queue': seq<nat>, tries: seq<Try>, start: nat, b: nat)
    requires queue <= queue' && (b in queue' || GivenUp(tries, b))
    ensures Settled(c, queue, tries, start, b) ==> Settled(c, queue', tries, start, b + 1)
  {
    forall x | x in queue
      ensures x in queue'
    {
      var i :| 0 <= i < |queue| && queue[i] == x;
      assert queue'[i] == x;
    }
  }
}