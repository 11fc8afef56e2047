/*
 * Reloading certificate revocation lists (CRLs) for the server and client
 * TLS context factories of the Jetty 9 webserver service.
 *
 * Each factory owns a CRL collection. The collection caches the CRLs it
 * last parsed and, on reload, retries parsing the CRL file until it succeeds
 * or until it has failed a fixed number of times in a row without the file
 * changing on disk. The outside world the loop talks to (the CRL parser and
 * the file's modification time) is given as a finite sequence of attempts.
 */
module CrlReload {
  import opened Wrappers

  /** The number of consecutive failures, with the file unchanged, after
      which a reload gives up. */
  const MaxTries: int := 25
  /** The pause between two attempts, in milliseconds. */
  const SleepMillis: nat := 100

  /** Parsed CRLs, one entry per revocation list (by issuer). */
  type CrlList = seq<string>

  /** What one pass of the retry loop observes: either the CRL file parsed,
      or parsing failed with `cause`, after which the file's modification time
      was read once to compare it with the stored one (`mtime`) and, when it
      differed, once more to store it (`mtimeAgain`). */
  datatype Attempt =
    | Loaded(crls: CrlList)
    | Failed(cause: string, mtime: int, mtimeAgain: int)

  /** How a reload ends. `Pending` means the given attempts ran out before the
      loop ended; `Unconfigured` means the factory has no CRL path. */
  datatype Ending =
    | Succeeded(crls: CrlList)
    | GaveUp(cause: string, warned: bool)
    | Pending
    | Unconfigured

  /** The record of a run of the loop: attempts consumed, pauses taken, the
      counter and the stored modification time at the end. */
  datatype Run = Run(used: nat, sleeps: nat, tries: int, mtime: int, ending: Ending)

  /** The message logged when a reload gives up. */
  datatype Warning = Warning(maxTries: int, crlPath: string, cause: string)

  datatype Role = Server | Client

  predicate FailedBefore(attempts: seq<Attempt>, n: int)
    requires n <= |attempts|
  {
    forall k | 0 <= k < n :: attempts[k].Failed?
  }

  /** A pause is taken after every failure except the one that logs the
      warning; a success ends the loop without a pause. */
  function SleepsFor(used: nat, ending: Ending): int {
    if ending.Succeeded? || (ending.GaveUp? && ending.warned) then used - 1 else used
  }

  /** The do-while loop of a reload, one attempt per pass, starting with the
      counter at `tries` and the stored modification time `mtime`. */
  function Retry(maxTries: int, tries: int, mtime: int, attempts: seq<Attempt>): Run
    decreases |attempts|
  {
    if attempts == [] then Run(0, 0, tries, mtime, Pending)
    else match attempts[0]
      case Loaded(crls) => Run(1, 0, tries, mtime, Succeeded(crls))
      case Failed(cause, m, m2) =>
        var tries', mtime' := if mtime != m then maxTries else tries - 1, if mtime != m then m2 else mtime;
        if tries' > 0 then
          var rest := Retry(maxTries, tries', mtime', attempts[1..]);
          Run(rest.used + 1, rest.sleeps + 1, rest.tries, rest.mtime, rest.ending)
        else
          Run(1, if tries' == 0 then 0 else 1, tries', mtime', GaveUp(cause, tries' == 0))
  }

  /** The factory state the collection reads and drives: its configured CRL
      path and the number of times its SSL context was rebuilt. */
  class SslFactory {
    const role: Role
    var crlPath: Option<string>
    var reloads: nat

    constructor (role: Role, crlPath: Option<string>)
      ensures this.role == role && this.crlPath == crlPath && reloads == 0
    {
      this.role := role;
      this.crlPath := crlPath;
      reloads := 0;
    }
  }

  class CrlCollection {
    const factory: SslFactory
    /** Which logger the collection warns through. */
    const log: Role
    /** The CRLs from the last successful reload, if any. */
    var crls: Option<CrlList>
    /** The warnings logged so far. */
    var warnings: seq<Warning>

    constructor (factory: SslFactory, log: Role)
      ensures this.factory == factory && this.log == log
      ensures crls == None && warnings == []
    {
      this.factory := factory;
      this.log := log;
      crls := None;
      warnings := [];
    }

    /** The CRLs the SSL context is built from: the reloaded ones once a
        reload has succeeded, otherwise what parsing the file gives now
        (`fromFile`). */
    method LoadCrl(fromFile: Result<CrlList, string>) returns (r: Result<CrlList, string>)
      ensures crls.Some? ==> r == Ok(crls.value)
      ensures crls.None? ==> r == fromFile
    {
      if crls == None {
        r := fromFile;
      } else {
        r := Ok(crls.value);
      }
    }

    /** Re-parse the CRL file, retrying as `Retry` describes, then rebuild the
        factory's SSL context unless the last attempt failed. */
    method Reload(maxTries: int, initialMtime: int, attempts: seq<Attempt>) returns (used: nat, sleeps: nat, ending: Ending)
      modifies this, factory
      ensures factory.crlPath == old(factory.crlPath)
      ensures factory.crlPath.None? ==>
                && used == 0 && sleeps == 0 && ending == Unconfigured
                && crls == old(crls) && warnings == old(warnings)
      ensures factory.crlPath.Some? ==>
                var run := Retry(maxTries, maxTries, initialMtime, attempts);
                && used == run.used && sleeps == run.sleeps && ending == run.ending
                && crls == CrlsAfter(old(crls), ending)
                && warnings == WarningsAfter(old(warnings), maxTries, factory.crlPath.value, ending)
      ensures factory.reloads == old(factory.reloads) + (if ending.Succeeded? || ending.Unconfigured? then 1 else 0)
    {
      used, sleeps, ending := 0, 0, Unconfigured;
      if factory.crlPath.Some? {
        var path := factory.crlPath.value;
        var tries, mtime := maxTries, initialMtime;
        ghost var whole := Retry(maxTries, maxTries, initialMtime, attempts);
        ending := Pending;
        var done := false;
        while !done
          modifies this
          invariant used <= |attempts|
          invariant !done ==> ending == Pending
          invariant 1 <= maxTries && !done ==> 1 <= tries <= maxTries
          invariant crls == CrlsAfter(old(crls), ending)
          invariant warnings == WarningsAfter(old(warnings), maxTries, path, ending)
          invariant !done ==> whole == Shifted(used, sleeps, Retry(maxTries, tries, mtime, attempts[used..]))
          invariant done ==> used == whole.used
          invariant done ==> sleeps == whole.sleeps
          invariant done ==> ending == whole.ending
          decreases |attempts| - used, if done then 0 else 1
        {
          RetryStep(maxTries, tries, mtime, attempts, used);
          ghost var run := Retry(maxTries, tries, mtime, attempts[used..]);
          if used == |attempts| {
            done := true;
          } else {
            match attempts[used]
            case Loaded(parsed) =>
              crls := Some(parsed);
              used := used + 1;
              ending := Succeeded(parsed);
              done := true;
            case Failed(cause, m, m2) =>
              used := used + 1;
              if mtime != m {
                mtime := m2;
                tries := maxTries;
              } else {
                tries := tries - 1;
              }
              if tries == 0 {
                warnings := warnings + [Warning(maxTries, path, cause)];
              } else {
                sleeps := sleeps + 1;
              }
              if tries <= 0 {
                ending := GaveUp(cause, tries == 0);
                done := true;
              } else {
                assert run == Shifted(1, 1, Retry(maxTries, tries, mtime, attempts[used..]));
              }
          }
        }
      }
      if ending.Succeeded? || ending.Unconfigured? {
        factory.reloads := factory.reloads + 1;
      }
    }
  }

  /** The cached CRLs after a reload that ended with `ending`. */
  function CrlsAfter(before: Option<CrlList>, ending: Ending): Option<CrlList> {
    if ending.Succeeded? then Some(ending.crls) else before
  }

  /** The warnings logged after a reload that ended with `ending`. */
  function WarningsAfter(before: seq<Warning>, maxTries: int, crlPath: string, ending: Ending): seq<Warning> {
    before + if ending.GaveUp? && ending.warned then [Warning(maxTries, crlPath, ending.cause)] else []
  }

  function Shifted(used: nat, sleeps: nat, r: Run): Run {
    Run(r.used + used, r.sleeps + sleeps, r.tries, r.mtime, r.ending)
  }

  /** One unfolding of `Retry` at position `used` of the attempts. */
  lemma RetryStep(maxTries: int, tries: int, mtime: int, attempts: seq<Attempt>, used: nat)
    requires used <= |attempts|
    ensures used < |attempts| && attempts[used].Loaded? ==>
              Retry(maxTries, tries, mtime, attempts[used..]) == Run(1, 0, tries, mtime, Succeeded(attempts[used].crls))
    ensures used < |attempts| && attempts[used].Failed? ==>
              var a := attempts[used];
              var tries' := if mtime != a.mtime then maxTries else tries - 1;
              var mtime' := if mtime != a.mtime then a.mtimeAgain else mtime;
              Retry(maxTries, tries, mtime, attempts[used..])
              == if tries' > 0 then Shifted(1, 1, Retry(maxTries, tries', mtime', attempts[used + 1..]))
                 else Run(1, if tries' == 0 then 0 else 1, tries', mtime', GaveUp(a.cause, tries' == 0))
  {
    if used < |attempts| {
      assert attempts[used..][1..] == attempts[used + 1..];
    }
  }

  /** A factory of one role together with its own CRL collection; the server
      and the client factories differ only in the logger they warn through. */
  class ContextFactory {
    const factory: SslFactory
    const collection: CrlCollection

    constructor (role: Role, crlPath: Option<string>)
      ensures fresh(factory) && fresh(collection)
      ensures factory.role == role && factory.crlPath == crlPath && factory.reloads == 0
      ensures collection.factory == factory && collection.log == role
      ensures collection.crls == None && collection.warnings == []
    {
      var f := new SslFactory(role, crlPath);
      factory := f;
      collection := new CrlCollection(f, role);
    }

    method LoadCrl(fromFile: Result<CrlList, string>) returns (r: Result<CrlList, string>)
      ensures collection.crls.Some? ==> r == Ok(collection.crls.value)
      ensures collection.crls.None? ==> r == fromFile
    {
      r := collection.LoadCrl(fromFile);
    }

    method Reload(maxTries: int, initialMtime: int, attempts: seq<Attempt>) returns (used: nat, sleeps: nat, ending: Ending)
      requires collection.factory == factory
      modifies collection, factory
      ensures factory.crlPath == old(factory.crlPath)
      ensures factory.crlPath.Some? ==>
                var run := Retry(maxTries, maxTries, initialMtime, attempts);
                && used == run.used && sleeps == run.sleeps && ending == run.ending
                && collection.crls == CrlsAfter(old(collection.crls), ending)
                && collection.warnings == WarningsAfter(old(collection.warnings), maxTries, factory.crlPath.value, ending)
      ensures factory.crlPath.None? ==>
                && used == 0 && sleeps == 0 && ending == Unconfigured
                && collection.crls == old(collection.crls) && collection.warnings == old(collection.warnings)
      ensures factory.reloads == old(factory.reloads) + (if ending.Succeeded? || ending.Unconfigured? then 1 else 0)
    {
      used, sleeps, ending := collection.Reload(maxTries, initialMtime, attempts);
    }
  }
}

/** Properties of the retry loop. */
module CrlReloadProperties {
  import opened CrlReload

  /** What every run of the loop looks like: it consumes attempts up to and
      including the one that ends it, all of them failures except a final
      success; giving up leaves the counter at or below zero and warns exactly
      when it is zero; one pause follows each failure except a warned one. */
  lemma {:induction false} RetryShape(maxTries: int, tries: int, mtime: int, attempts: seq<Attempt>)
    ensures var r := Retry(maxTries, tries, mtime, attempts);
            && r.used <= |attempts|
            && (r.ending.Pending? ==> r.used == |attempts| && FailedBefore(attempts, r.used))
            && (r.ending.Succeeded? ==>
                  1 <= r.used && attempts[r.used - 1] == Loaded(r.ending.crls) && FailedBefore(attempts, r.used - 1))
            && (r.ending.GaveUp? ==>
                  && 1 <= r.used && FailedBefore(attempts, r.used)
                  && attempts[r.used - 1].cause == r.ending.cause
                  && r.tries <= 0 && (r.ending.warned <==> r.tries == 0))
            && !r.ending.Unconfigured?
            && r.sleeps == SleepsFor(r.used, r.ending)
    decreases |attempts|
  {
    if attempts != [] && attempts[0].Failed? {
      var a := attempts[0];
      var tries' := if mtime != a.mtime then maxTries else tries - 1;
      var mtime' := if mtime != a.mtime then a.mtimeAgain else mtime;
      if tries' > 0 {
        RetryShape(maxTries, tries', mtime', attempts[1..]);
        var rest := Retry(maxTries, tries', mtime', attempts[1..]);
        forall k | 1 <= k < |attempts| ensures attempts[k] == attempts[1..][k - 1] { }
      }
    }
  }

  /** The file stays as it was through the first n attempts, and each fails. */
  predicate FailsUnchanged(mtime: int, attempts: seq<Attempt>, n: nat)
    requires n <= |attempts|
  {
    forall k | 0 <= k < n :: attempts[k].Failed? && attempts[k].mtime == mtime
  }

  /** With the counter at `tries` and the file never changing, the loop gives
      up after exactly `tries` failures, pausing between them and logging the
      warning once. */
  lemma {:induction false} GiveUpAfterTries(maxTries: int, tries: int, mtime: int, attempts: seq<Attempt>)
    requires 1 <= tries <= |attempts|
    requires FailsUnchanged(mtime, attempts, tries)
    ensures var r := Retry(maxTries, tries, mtime, attempts);
            r.used == tries && r.sleeps == tries - 1 && r.ending.GaveUp? && r.ending.warned
            && r.ending.cause == attempts[tries - 1].cause
    decreases tries
  {
    if tries > 1 {
      assert FailsUnchanged(mtime, attempts[1..], tries - 1) by {
        forall k | 0 <= k < tries - 1 ensures attempts[1..][k].Failed? && attempts[1..][k].mtime == mtime {
          assert attempts[1..][k] == attempts[k + 1];
        }
      }
      GiveUpAfterTries(maxTries, tries - 1, mtime, attempts[1..]);
    }
  }

  /** A reload starting from `MaxTries` gives up after 25 unchanged failures,
      having paused 24 times, i.e. 2400 milliseconds. */
  lemma GiveUpAfterMaxTries(mtime: int, attempts: seq<Attempt>)
    requires MaxTries <= |attempts|
    requires FailsUnchanged(mtime, attempts, MaxTries)
    ensures var r := Retry(MaxTries, MaxTries, mtime, attempts);
            r.used == 25 && r.ending.GaveUp? && r.ending.warned && r.sleeps * SleepMillis == 2400
  {
    GiveUpAfterTries(MaxTries, MaxTries, mtime, attempts);
  }

  /** With a positive limit the counter never skips over zero, so giving up
      always logs the warning. */
  lemma {:induction false} GivingUpWarns(maxTries: int, tries: int, mtime: int, attempts: seq<Attempt>)
    requires 1 <= tries <= maxTries
    ensures var r := Retry(maxTries, tries, mtime, attempts);
            r.ending.GaveUp? ==> r.ending.warned
    decreases |attempts|
  {
    if attempts != [] && attempts[0].Failed? {
      var a := attempts[0];
      var tries' := if mtime != a.mtime then maxTries else tries - 1;
      var mtime' := if mtime != a.mtime then a.mtimeAgain else mtime;
      if tries' > 0 {
        GivingUpWarns(maxTries, tries', mtime', attempts[1..]);
      }
    }
  }

  /** With a positive limit the counter stays within [0, maxTries] throughout,
      and it ends at zero exactly when the loop gave up. */
  lemma {:induction false} CounterStaysInRange(maxTries: int, tries: int, mtime: int, attempts: seq<Attempt>)
    requires 1 <= tries <= maxTries
    ensures var r := Retry(maxTries, tries, mtime, attempts);
            && 0 <= r.tries <= maxTries
            && (r.ending.GaveUp? <==> r.tries == 0)
    decreases |attempts|
  {
    if attempts != [] && attempts[0].Failed? {
      var a := attempts[0];
      var tries' := if mtime != a.mtime then maxTries else tries - 1;
      var mtime' := if mtime != a.mtime then a.mtimeAgain else mtime;
      if tries' > 0 {
        CounterStaysInRange(maxTries, tries', mtime', attempts[1..]);
      }
    }
  }

  /** A limit below one makes the first unchanged failure end the loop with
      no warning logged. */
  lemma NonPositiveLimitGivesUpSilently(maxTries: int, mtime: int, attempts: seq<Attempt>)
    requires maxTries <= 0
    requires attempts != [] && attempts[0].Failed? && attempts[0].mtime == mtime
    ensures var r := Retry(maxTries, maxTries, mtime, attempts);
            r.used == 1 && r.sleeps == 1 && r.ending == GaveUp(attempts[0].cause, false)
  {
  }

  /** A parse that succeeds within the first `tries` attempts is never
      preceded by giving up: the counter only ever drops by one per attempt. */
  lemma {:induction false} SuccessWithinTriesWins(maxTries: int, tries: int, mtime: int, attempts: seq<Attempt>, k: nat)
    requires 1 <= tries <= maxTries
    requires k < tries && k < |attempts| && attempts[k].Loaded?
    ensures Retry(maxTries, tries, mtime, attempts).ending.Succeeded?
    decreases k
  {
    if k > 0 && attempts[0].Failed? {
      var a := attempts[0];
      var tries' := if mtime != a.mtime then maxTries else tries - 1;
      var mtime' := if mtime != a.mtime then a.mtimeAgain else mtime;
      assert attempts[1..][k - 1] == attempts[k];
      SuccessWithinTriesWins(maxTries, tries', mtime', attempts[1..], k - 1);
    }
  }

  /** Every failure sees the file changed since the last stored time. */
  predicate KeepsChanging(mtime: int, attempts: seq<Attempt>)
    decreases |attempts|
  {
    attempts == [] || attempts[0].Loaded?
    || (attempts[0].mtime != mtime && KeepsChanging(attempts[0].mtimeAgain, attempts[1..]))
  }

  /** While the CRL file keeps changing between failures the counter is reset
      every time, so the loop never gives up: it ends only by succeeding or
      goes on for as long as there are attempts. */
  lemma {:induction false} ChangingFileNeverGivesUp(maxTries: int, tries: int, mtime: int, attempts: seq<Attempt>)
    requires 1 <= maxTries
    requires KeepsChanging(mtime, attempts)
    ensures var r := Retry(maxTries, tries, mtime, attempts);
            r.ending.Succeeded? || (r.ending.Pending? && r.used == |attempts|)
    decreases |attempts|
  {
    if attempts != [] && attempts[0].Failed? {
      ChangingFileNeverGivesUp(maxTries, maxTries, attempts[0].mtimeAgain, attempts[1..]);
    }
  }

  /** A first attempt that parses ends the loop at once with no pause. */
  lemma FirstSuccessEndsLoop(maxTries: int, tries: int, mtime: int, attempts: seq<Attempt>)
    requires attempts != [] && attempts[0].Loaded?
    ensures var r := Retry(maxTries, tries, mtime, attempts);
            r.used == 1 && r.sleeps == 0 && r.ending == Succeeded(attempts[0].crls)
  {
  }
}
