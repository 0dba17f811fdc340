/**
 * The checker process of gas_price_checker.py: the state file it keeps on
 * disk, the check it runs per tick, and the polling loop over a finite run
 * of ticks. The file is the only state it mutates.
 */
module Checker {
  import opened Wrappers
  import opened FlagEncoding
  import opened Decision

  class GasPriceChecker {
    /** `gas_fee_threshold`, fixed at start-up. */
    const threshold: real
    /** The content of the state file; `None` while it does not exist. */
    var stateFile: Option<string>

    constructor (threshold: real, stateFile: Option<string>)
      ensures this.threshold == threshold && this.stateFile == stateFile
    {
      this.threshold := threshold;
      this.stateFile := stateFile;
    }

    /** `read_state`: a missing file is created holding 'False' and reads as False. */
    method ReadState() returns (state: bool)
      modifies this
      ensures state == FlagOf(old(stateFile))
      ensures old(stateFile).None? ==> stateFile == Some("False") && !state
      ensures old(stateFile).Some? ==> stateFile == old(stateFile) && state == ParseFlag(old(stateFile).value)
    {
      if stateFile.None? {
        stateFile := Some("False");
        state := false;
      } else {
        state := ParseFlag(stateFile.value);
      }
    }

    /** `write_state`: the file is overwritten with `str(state)` (which reads back as `state`: `ReadBackWritten`). */
    method WriteState(state: bool)
      modifies this
      ensures stateFile == Some(ShowBool(state))
    {
      stateFile := Some(ShowBool(state));
    }

    /**
     * `check_gas_price_and_notify` on the outcome of this tick's request.
     * It does what `Respond` says for the flag the file held, and leaves the
     * file existing: rewritten when the decision writes, otherwise as it was
     * (or 'False' if it had been missing, even when the request failed).
     */
    method Check(fetch: Fetch) returns (outcome: Step)
      modifies this
      ensures outcome == Respond(threshold, FlagOf(old(stateFile)), fetch)
      ensures outcome.Step? && outcome.write.Some? ==> stateFile == Some(ShowBool(outcome.write.value))
      ensures outcome.Crash? || outcome.write.None? ==> stateFile == Some(old(stateFile).GetOr("False"))
    {
      var notified := ReadState();
      // The arms below are the source's try/if chain; each is the matching arm of
      // `Respond`, and the price arm is `OnPrice`, proved equal to `OnReading`.
      match fetch
      case RequestFailed(reason) =>
        outcome := Step(Some(RequestError(reason)), None);
      case Received(p) =>
        if p.status.None? {
          outcome := Crash;
        } else if p.status.value == "1" {
          if p.proposeGasPrice.None? {
            outcome := Crash;
          } else {
            outcome := OnPrice(p.proposeGasPrice.value, notified);
          }
        } else if p.message.None? {
          outcome := Crash;
        } else {
          outcome := Step(Some(ApiFailed(p.message.value)), None);
        }
    }

    /**
     * The price branch of `check_gas_price_and_notify`: alert and record it,
     * reset the record, or leave the file alone, as `OnReading` decides.
     */
    method OnPrice(price: real, notified: bool) returns (outcome: Step)
      modifies this
      ensures outcome == OnReading(threshold, notified, price)
      ensures outcome.write.Some? ==> stateFile == Some(ShowBool(outcome.write.value))
      ensures outcome.write.None? ==> stateFile == old(stateFile)
    {
      if price < threshold && !notified {
        WriteState(true);
        outcome := Step(Some(BelowThreshold(threshold, price)), Some(true));
      } else if price >= threshold && notified {
        WriteState(false);
        outcome := Step(None, Some(false));
      } else {
        outcome := Step(None, None);
      }
    }

    /**
     * `main_loop` over the outcomes of successive ticks: one check per tick
     * until the outcomes run out or a check crashes. What it sends and the
     * flag it leaves on disk are those of `Run`, so every property proved of
     * `Run` holds of the messages this loop sends.
     */
    method MainLoop(fetches: seq<Fetch>) returns (sent: seq<Option<Message>>, crashed: bool)
      modifies this
      ensures Run(threshold, FlagOf(old(stateFile)), fetches) == Trace(sent, FlagOf(stateFile), crashed)
    {
      ghost var flag0 := FlagOf(stateFile);
      sent, crashed := [], false;
      var i := 0;
      assert fetches[..0] == [];
      while i < |fetches| && !crashed
        invariant 0 <= i <= |fetches|
        invariant Run(threshold, flag0, fetches[..i]) == Trace(sent, FlagOf(stateFile), crashed)
      {
        ghost var before := stateFile;
        var outcome := Check(fetches[i]);
        TickStep(threshold, flag0, fetches, i, sent, before, stateFile, outcome);
        if outcome.Crash? {
          crashed := true;
        } else {
          sent := sent + [outcome.sent];
        }
        i := i + 1;
      }
      RunDone(threshold, flag0, fetches, i);
    }
  }

  /**
   * One tick of the loop: when the trace so far matches the file before the
   * check, the trace one outcome longer matches the file after it.
   */
  lemma TickStep(threshold: real, flag0: bool, fs: seq<Fetch>, i: nat, sent: seq<Option<Message>>,
                 before: Option<string>, after: Option<string>, outcome: Step)
    requires i < |fs| && Run(threshold, flag0, fs[..i]) == Trace(sent, FlagOf(before), false)
    requires outcome == Respond(threshold, FlagOf(before), fs[i])
    requires outcome.Step? && outcome.write.Some? ==> after == Some(ShowBool(outcome.write.value))
    requires outcome.Crash? || outcome.write.None? ==> after == Some(before.GetOr("False"))
    ensures Run(threshold, flag0, fs[..i + 1]) ==
      if outcome.Crash? then Trace(sent, FlagOf(after), true) else Trace(sent + [outcome.sent], FlagOf(after), false)
  {
    RunSnoc(threshold, flag0, fs, i);
    FlagAfterCheck(before, after, outcome);
  }

  /**
   * The flag on disk after a check is the flag `Respond` moved to: a rewrite
   * reads back as the value written, and a file only (re)created as 'False'
   * reads as before.
   */
  lemma FlagAfterCheck(before: Option<string>, after: Option<string>, outcome: Step)
    requires outcome.Step? && outcome.write.Some? ==> after == Some(ShowBool(outcome.write.value))
    requires outcome.Crash? || outcome.write.None? ==> after == Some(before.GetOr("False"))
    ensures FlagOf(after) == if outcome.Step? then NextFlag(FlagOf(before), outcome.write) else FlagOf(before)
  {
    if outcome.Step? && outcome.write.Some? {
      ReadBackWritten(outcome.write.value);
    } else {
      ReadCreatesFalse(before);
    }
  }
}
