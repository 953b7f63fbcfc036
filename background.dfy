/**
 * The monitoring state of `BackgroundAppManager` (BackgroundManager.swift):
 * whether monitoring is on, whether its repeating timer is scheduled, and
 * how many records the last scan returned. A check compares the new scan's
 * record count with the last one and treats the leading surplus records as
 * new: each is copied to the pasteboard and announced.
 *
 * The scans run asynchronously in the source; here each scan's outcome is
 * passed to the method that consumes it, so the model is the sequence of
 * state changes on the main actor. The pasteboard and the alerts are ghost
 * state: what the manager has written to them.
 */
module Background {
  import opened Wrappers
  import opened Models

  /** The records a check treats as new: the first `|found| - last` of them, or none. */
  function NewOTPs(found: seq<OTPMessage>, last: nat): (recent: seq<OTPMessage>)
    ensures |found| > last ==> |recent| == |found| - last
    ensures |found| <= last ==> recent == []
    ensures recent <= found
  {
    if |found| > last then found[..|found| - last] else []
  }

  /** The codes of a list of records, in order. */
  function CodesOf(otps: seq<OTPMessage>): (codes: seq<string>)
    ensures |codes| == |otps|
  {
    seq(|otps|, i requires 0 <= i < |otps| => otps[i].code)
  }

  /**
   * When the new scan is the previous result with records put in front of
   * it (newest first), exactly those records are new.
   */
  lemma NewOTPsAreThePrepended(recent: seq<OTPMessage>, previous: seq<OTPMessage>)
    ensures NewOTPs(recent + previous, |previous|) == recent
  {
    var found := recent + previous;
    if recent != [] {
      assert found[..|found| - |previous|] == recent;
    }
  }

  class BackgroundManager {
    var isMonitoring: bool
    var timerScheduled: bool
    var lastOTPCount: nat
    /** The string on the general pasteboard. */
    ghost var clipboard: string
    /** Every code written to the pasteboard, in order. */
    ghost var copied: seq<string>
    /** Every code announced by an alert (with a beep), in order. */
    ghost var alerts: seq<string>

    /** The timer runs exactly while monitoring is on. */
    ghost predicate Valid()
      reads this
    {
      timerScheduled == isMonitoring
    }

    /** `init`: monitoring starts at once; the pasteboard holds whatever it held. */
    constructor(ghost pasteboard: string)
      ensures Valid()
      ensures isMonitoring && timerScheduled && lastOTPCount == 0
      ensures clipboard == pasteboard && copied == [] && alerts == []
    {
      isMonitoring := true;
      timerScheduled := true;
      lastOTPCount := 0;
      clipboard := pasteboard;
      copied := [];
      alerts := [];
    }

    /** `startMonitoring`: monitoring on and the timer scheduled; the initial scan reports later. */
    method StartMonitoring()
      modifies this
      ensures Valid()
      ensures isMonitoring && timerScheduled
      ensures lastOTPCount == old(lastOTPCount)
      ensures clipboard == old(clipboard) && copied == old(copied) && alerts == old(alerts)
    {
      isMonitoring := true;
      timerScheduled := true;
    }

    /** `stopMonitoring`: monitoring off and the timer invalidated. */
    method StopMonitoring()
      modifies this
      ensures Valid()
      ensures !isMonitoring && !timerScheduled
      ensures lastOTPCount == old(lastOTPCount)
      ensures clipboard == old(clipboard) && copied == old(copied) && alerts == old(alerts)
    {
      isMonitoring := false;
      timerScheduled := false;
    }

    /** `toggleMonitoring`: stop when monitoring, start otherwise. */
    method ToggleMonitoring()
      modifies this
      ensures Valid()
      ensures isMonitoring == !old(isMonitoring)
      ensures lastOTPCount == old(lastOTPCount)
      ensures clipboard == old(clipboard) && copied == old(copied) && alerts == old(alerts)
    {
      if isMonitoring {
        StopMonitoring();
      } else {
        StartMonitoring();
      }
    }

    /** The initial scan started by `startMonitoring` has finished: a success records its count; a failure is only logged. */
    method InitialScanCompleted(result: Result<seq<OTPMessage>, OTPError>)
      modifies this
      requires Valid()
      ensures Valid()
      ensures result.Success? ==> lastOTPCount == |result.value|
      ensures result.Failure? ==> lastOTPCount == old(lastOTPCount)
      ensures isMonitoring == old(isMonitoring) && timerScheduled == old(timerScheduled)
      ensures clipboard == old(clipboard) && copied == old(copied) && alerts == old(alerts)
    {
      if result.Success? {
        lastOTPCount := |result.value|;
      }
    }

    /**
     * `checkForNewOTPs`: on a successful scan, copy and announce each new
     * record in list order, then record the new count; a failed scan
     * changes nothing.
     */
    method CheckForNewOTPs(result: Result<seq<OTPMessage>, OTPError>)
      modifies this
      requires Valid()
      ensures Valid()
      ensures isMonitoring == old(isMonitoring) && timerScheduled == old(timerScheduled)
      ensures result.Failure? ==>
        lastOTPCount == old(lastOTPCount) && clipboard == old(clipboard)
        && copied == old(copied) && alerts == old(alerts)
      ensures result.Success? ==> lastOTPCount == |result.value|
      ensures result.Success? ==>
        copied == old(copied) + CodesOf(NewOTPs(result.value, old(lastOTPCount)))
        && alerts == old(alerts) + CodesOf(NewOTPs(result.value, old(lastOTPCount)))
      ensures result.Success? ==>
        (clipboard == if NewOTPs(result.value, old(lastOTPCount)) == [] then old(clipboard)
                      else NewOTPs(result.value, old(lastOTPCount))[|NewOTPs(result.value, old(lastOTPCount))| - 1].code)
    {
      if result.Failure? {
        return;
      }
      var foundOTPs := result.value;
      if |foundOTPs| > lastOTPCount {
        var newOTPs := foundOTPs[..|foundOTPs| - lastOTPCount];
        var k := 0;
        while k < |newOTPs|
          invariant 0 <= k <= |newOTPs|
          invariant lastOTPCount == old(lastOTPCount)
          invariant isMonitoring == old(isMonitoring) && timerScheduled == old(timerScheduled)
          invariant copied == old(copied) + CodesOf(newOTPs[..k])
          invariant alerts == old(alerts) + CodesOf(newOTPs[..k])
          invariant clipboard == if k == 0 then old(clipboard) else newOTPs[k - 1].code
        {
          var newOTP := newOTPs[k];
          assert CodesOf(newOTPs[..k + 1]) == CodesOf(newOTPs[..k]) + [newOTP.code];
          clipboard := newOTP.code;
          copied := copied + [newOTP.code];
          alerts := alerts + [newOTP.code];
          k := k + 1;
        }
        assert newOTPs[..k] == newOTPs;
      }
      lastOTPCount := |foundOTPs|;
    }

    /**
     * One tick of the repeating timer: when monitoring has been turned off
     * the timer invalidates itself; otherwise it runs a check on the scan's
     * outcome.
     */
    method TimerFired(result: Result<seq<OTPMessage>, OTPError>)
      modifies this
      requires Valid()
      ensures Valid()
      ensures isMonitoring == old(isMonitoring)
      ensures !old(isMonitoring) || result.Failure? ==>
        lastOTPCount == old(lastOTPCount) && clipboard == old(clipboard)
        && copied == old(copied) && alerts == old(alerts)
      ensures old(isMonitoring) && result.Success? ==> lastOTPCount == |result.value|
      ensures old(isMonitoring) && result.Success? ==>
        copied == old(copied) + CodesOf(NewOTPs(result.value, old(lastOTPCount)))
        && alerts == old(alerts) + CodesOf(NewOTPs(result.value, old(lastOTPCount)))
      ensures old(isMonitoring) && result.Success? ==>
        (clipboard == if NewOTPs(result.value, old(lastOTPCount)) == [] then old(clipboard)
                      else NewOTPs(result.value, old(lastOTPCount))[|NewOTPs(result.value, old(lastOTPCount))| - 1].code)
    {
      if !isMonitoring {
        timerScheduled := false;
        return;
      }
      CheckForNewOTPs(result);
    }
  }
}
