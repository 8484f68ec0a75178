/** The dispatch loop `startLoop`: contacts are handed to `sendProcess` one at
    a time, in index order, and the shared `stopFlag` is checked before each.
    The flag is an input here: `flagSeen[i]` is its value at the check before
    index i. The list of dispatched indices is the output; the delivery itself,
    the pause between contacts and the completion notice are not modelled. */
module Dispatch {

  /** The position of the first set flag, or the length when none is set. */
  function FirstSet(flags: seq<bool>): (k: nat)
    ensures k <= |flags|
    ensures forall i :: 0 <= i < k ==> !flags[i]
    ensures k < |flags| ==> flags[k]
    decreases |flags|
  {
    if |flags| == 0 then 0
    else if flags[0] then 0
    else 1 + FirstSet(flags[1..])
  }

  /** The indices 0 .. k-1 in order. */
  function Indices(k: nat): seq<nat>
  {
    seq(k, i requires 0 <= i < k => i)
  }

  /** `startLoop` over `n` contacts. Returns the indices passed to
      `sendProcess`, in dispatch order, and the flag's value on exit. */
  method StartLoop(n: nat, flagSeen: seq<bool>) returns (dispatched: seq<nat>, stopFlag: bool)
    requires |flagSeen| == n
    ensures dispatched == Indices(FirstSet(flagSeen))
    ensures forall i, j :: 0 <= i < j < |dispatched| ==> dispatched[i] < dispatched[j]
    ensures forall i :: 0 <= i < |dispatched| ==> !flagSeen[i]
    ensures |dispatched| < n ==> flagSeen[|dispatched|]
    ensures (forall i :: 0 <= i < n ==> !flagSeen[i]) ==> |dispatched| == n
    ensures stopFlag
  {
    dispatched := [];
    var i := 0;
    while i < n
      invariant 0 <= i <= n
      invariant dispatched == Indices(i)
      invariant forall j :: 0 <= j < i ==> !flagSeen[j]
    {
      if flagSeen[i] {
        break;
      }
      dispatched := dispatched + [i];
      i := i + 1;
    }
    stopFlag := true;
  }

  /** The flag at each check of a loop that starts with the flag at `flag`:
      a `stop` during iteration j (`stops[j]`) sets it for the check after j,
      and nothing clears it while the loop runs. */
  function FlagFrom(flag: bool, stops: seq<bool>): (seen: seq<bool>)
    ensures |seen| == |stops|
    ensures |stops| > 0 ==> seen[0] == flag
    ensures forall i, j :: 0 <= i <= j < |seen| && seen[i] ==> seen[j]
    ensures forall j, i :: 0 <= j < i < |stops| && stops[j] ==> seen[i]
    ensures forall i :: 0 <= i < |seen| && seen[i] ==> flag || exists j :: 0 <= j < i && stops[j]
    decreases |stops|
  {
    if |stops| == 0 then []
    else
      var rest := FlagFrom(flag || stops[0], stops[1..]);
      var seen := [flag] + rest;
      assert forall i :: 0 <= i < |seen| && seen[i] ==> flag || exists j :: 0 <= j < i && stops[j] by {
        forall i | 0 <= i < |seen| && seen[i] && !flag && !stops[0]
          ensures exists j :: 0 <= j < i && stops[j]
        {
          assert rest[i - 1];
          var j' :| 0 <= j' < i - 1 && stops[1..][j'];
          assert stops[j' + 1];
        }
      }
      seen
  }

  /** The flag as the loop sees it during one run: cleared when the run starts
      (server.js:231), then set by the `stop` handler (server.js:546). */
  function FlagTimeline(stops: seq<bool>): (seen: seq<bool>)
    ensures |seen| == |stops|
    ensures |stops| > 0 ==> !seen[0]
    ensures forall i, j :: 0 <= i <= j < |seen| && seen[i] ==> seen[j]
    ensures forall j, i :: 0 <= j < i < |stops| && stops[j] ==> seen[i]
    ensures forall i :: 0 <= i < |seen| && seen[i] ==> exists j :: 0 <= j < i && stops[j]
  {
    FlagFrom(false, stops)
  }

  /** A run as the cron job starts it (server.js:231-233): the flag is
      cleared, then the loop runs over `n` contacts while `stop` events arrive. */
  method RunCampaign(n: nat, stops: seq<bool>) returns (dispatched: seq<nat>, stopFlag: bool)
    requires |stops| == n
    ensures forall i :: 0 <= i < |dispatched| ==> dispatched[i] == i
    ensures n > 0 ==> |dispatched| >= 1
    ensures forall j :: 0 <= j < n && stops[j] && (forall i :: 0 <= i < j ==> !stops[i]) ==>
      |dispatched| == j + 1
    ensures (forall j :: 0 <= j < n ==> !stops[j]) ==> |dispatched| == n
    ensures stopFlag
  {
    var seen := FlagTimeline(stops);
    dispatched, stopFlag := StartLoop(n, seen);
    forall j | 0 <= j < n && stops[j] && (forall i :: 0 <= i < j ==> !stops[i])
      ensures |dispatched| == j + 1
    {
      if j + 1 < n {
        assert seen[j + 1];
      }
      assert forall i :: 0 <= i <= j ==> !seen[i];
    }
  }
}
