/**
 Activate: the deferred counterpart of the bulk sync's group addition. It
 pushes one username to the provider's directory sync, but only while the
 user is in the MFA users group; failures are retried by the job queue with
 a countdown of 3 to the power of the retries so far, at most ten times.
 */
module Activation {
  import opened Directory
  import opened State

  const MaxRetries: nat := 10

  function Pow3(n: nat): nat
  {
    if n == 0 then 1 else 3 * Pow3(n - 1)
  }

  /** How one run of Activate ends. */
  datatype Outcome =
    | Synced                    // the provider accepted the sync
    | RetryIn(countdown: nat)   // the queue runs the job again after `countdown` seconds
    | Exhausted                 // the queue refuses a further retry
    | Dropped                   // not run from a queue: the failure is only logged

  /** The user's directory entry is a member of the MFA users group. */
  predicate InMfaGroup(w: World, username: string)
  {
    username in w.directory && w.directory[username] in w.mfaGroup
  }

  /**
   One run of Activate, given whether it runs from a queue, how often it was
   retried already and whether the provider's sync call succeeds.
   */
  function Activate(w: World, username: string, queued: bool, retries: nat, syncOk: bool): (r: Outcome)
    ensures r == Synced <==> InMfaGroup(w, username) && syncOk
    ensures r.RetryIn? <==> !(InMfaGroup(w, username) && syncOk) && queued && retries < MaxRetries
    ensures r.RetryIn? ==> r.countdown == Pow3(retries)
    ensures r == Exhausted <==> !(InMfaGroup(w, username) && syncOk) && queued && retries >= MaxRetries
    ensures r == Dropped <==> !(InMfaGroup(w, username) && syncOk) && !queued
  {
    var member := match FindUser(w.directory, username)
                  case Found(dn) => dn in w.mfaGroup
                  case _ => false;
    if member && syncOk then Synced
    else if !queued then Dropped
    else if retries < MaxRetries then RetryIn(Pow3(retries))
    else Exhausted
  }

  /** The filter Activate builds as written: the closing parenthesis is missing. */
  function ActivateFilterAsWritten(username: string): string
  {
    CnPrefix + username
  }

  /**
   As written, Activate's search is refused for every username that does not
   itself end in a closing parenthesis, so it can never reach its decision.
   */
  lemma AsWrittenFilterRefused(directory: map<string, Dn>, username: string)
    requires |username| == 0 || username[|username| - 1] != ')'
    ensures Search(directory, ActivateFilterAsWritten(username)) == MalformedFilter
  {
    var f := ActivateFilterAsWritten(username);
    if |username| > 0 {
      assert f[|f| - 1] == username[|username| - 1];
    }
  }

  /** A concrete user in the MFA group whom the as-written search refuses, while the corrected lookup finds her. */
  lemma AsWrittenCounterexample()
    ensures var directory := map["alice" := "CN=alice,OU=People"];
            && Search(directory, ActivateFilterAsWritten("alice")) == MalformedFilter
            && FindUser(directory, "alice") == Found("CN=alice,OU=People")
  {
    AsWrittenFilterRefused(map["alice" := "CN=alice,OU=People"], "alice");
  }
}
