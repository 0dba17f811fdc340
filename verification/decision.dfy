/**
 * The alert decision of `check_gas_price_and_notify` (gas_price_checker.py),
 * as pure functions over the outcome of one oracle request and the persisted
 * "already notified" flag, and the behaviour of the polling loop over a
 * sequence of such outcomes.
 */
module Decision {
  import opened Wrappers

  /**
   * The decoded JSON body of the oracle's answer. A key that is absent is
   * `None`; `proposeGasPrice` is also `None` when `float()` rejects the text.
   */
  datatype Payload = Payload(status: Option<string>, message: Option<string>, proposeGasPrice: Option<real>)

  /** What one HTTP request produced: a decoded body, or a `RequestException`. */
  datatype Fetch = Received(payload: Payload) | RequestFailed(reason: string)

  /** The chat messages a check can send. */
  datatype Message =
    | BelowThreshold(threshold: real, price: real)  // the alert
    | ApiFailed(apiMessage: string)                  // status other than '1'
    | RequestError(reason: string)                   // request raised

  /**
   * The effect of one check: the message it sent (at most one) and the
   * flag it wrote with `write_state`, if any; or `Crash` when an exception
   * other than `RequestException` escapes (a missing key, an unparsable price).
   */
  datatype Step = Step(sent: Option<Message>, write: Option<bool>) | Crash

  /** The gas price a fetch reports, when the request succeeded with status '1'. */
  function Reading(f: Fetch): Option<real> {
    if f.Received? && f.payload.status == Some("1") then f.payload.proposeGasPrice else None
  }

  /** A body the check cannot handle: the keys it reads on its branch are missing. */
  predicate Malformed(f: Fetch) {
    f.Received? &&
    match f.payload.status
    case None => true
    case Some(s) => if s == "1" then f.payload.proposeGasPrice.None? else f.payload.message.None?
  }

  predicate IsAlert(m: Option<Message>) {
    m.Some? && m.value.BelowThreshold?
  }

  /** The flag after a check that wrote `write` (nothing written: unchanged). */
  function NextFlag(notified: bool, write: Option<bool>): bool {
    write.GetOr(notified)
  }

  /**
   * The branch on a successful reading: the flag afterwards says whether the
   * price is below the threshold, and the only message it can send is the alert.
   */
  function OnReading(threshold: real, notified: bool, price: real): (r: Step)
    ensures r.Step? && NextFlag(notified, r.write) == (price < threshold)
    ensures r.sent.Some? ==> IsAlert(r.sent)
  {
    if price < threshold && !notified then Step(Some(BelowThreshold(threshold, price)), Some(true))
    else if price >= threshold && notified then Step(None, Some(false))
    else Step(None, None)
  }

  /**
   * One check, given the threshold and the flag `read_state` returned.
   * After any successful reading the flag says whether that reading was below
   * the threshold; a failed request or API error sends one error message and
   * writes nothing; only a malformed body crashes.
   */
  function Respond(threshold: real, notified: bool, f: Fetch): (r: Step)
    ensures r.Crash? <==> Malformed(f)
    ensures r.Step? && Reading(f).Some? ==> NextFlag(notified, r.write) == (Reading(f).value < threshold)
    ensures r.Step? && Reading(f).Some? ==> (r.sent.Some? ==> IsAlert(r.sent))
    ensures r.Step? && Reading(f).None? ==> r.write.None? && r.sent.Some? && !IsAlert(r.sent)
    ensures f.RequestFailed? ==> r == Step(Some(RequestError(f.reason)), None)
    ensures f.Received? && !Malformed(f) && f.payload.status != Some("1") ==>
      r == Step(Some(ApiFailed(f.payload.message.value)), None)
  {
    match f
    case RequestFailed(reason) => Step(Some(RequestError(reason)), None)
    case Received(p) =>
      if p.status.None? then Crash
      else if p.status.value == "1" then
        if p.proposeGasPrice.None? then Crash
        else OnReading(threshold, notified, p.proposeGasPrice.value)
      else if p.message.None? then Crash
      else Step(Some(ApiFailed(p.message.value)), None)
  }

  /** The four cases of a successful reading. */
  lemma DecisionTable(threshold: real, notified: bool, f: Fetch, price: real)
    requires Reading(f) == Some(price)
    ensures price < threshold && !notified ==> Respond(threshold, notified, f) == Step(Some(BelowThreshold(threshold, price)), Some(true))
    ensures price >= threshold && notified ==> Respond(threshold, notified, f) == Step(None, Some(false))
    ensures price < threshold && notified ==> Respond(threshold, notified, f) == Step(None, None)
    ensures price >= threshold && !notified ==> Respond(threshold, notified, f) == Step(None, None)
  {
  }

  /** What the polling loop has done so far: messages per completed check, the flag, whether it crashed. */
  datatype Trace = Trace(sent: seq<Option<Message>>, flag: bool, crashed: bool)

  /**
   * `main_loop` run over the fetch outcomes `fs`, starting from flag `flag0`.
   * A crash ends the loop; the outcomes after it are never requested.
   */
  function Run(threshold: real, flag0: bool, fs: seq<Fetch>): (t: Trace)
    ensures |t.sent| <= |fs|
    ensures !t.crashed ==> |t.sent| == |fs|
    decreases |fs|
  {
    if fs == [] then Trace([], flag0, false)
    else
      var prev := Run(threshold, flag0, fs[..|fs| - 1]);
      if prev.crashed then prev
      else match Respond(threshold, prev.flag, fs[|fs| - 1])
        case Crash => Trace(prev.sent, prev.flag, true)
        case Step(m, w) => Trace(prev.sent + [m], NextFlag(prev.flag, w), false)
  }

  /** The price of the last successful reading in `fs`, if there is one. */
  function LastReading(fs: seq<Fetch>): Option<real>
    decreases |fs|
  {
    if fs == [] then None
    else if Reading(fs[|fs| - 1]).Some? then Reading(fs[|fs| - 1])
    else LastReading(fs[..|fs| - 1])
  }

  /** The flag after the outcomes `fs`: below-threshold-ness of the last reading, else the start flag. */
  function ExpectedFlag(threshold: real, flag0: bool, fs: seq<Fetch>): bool {
    match LastReading(fs)
    case None => flag0
    case Some(p) => p < threshold
  }

  /** A crash is final, and the loop's history only ever grows. */
  lemma {:induction false} RunPrefix(threshold: real, flag0: bool, fs: seq<Fetch>, n: nat)
    requires n <= |fs|
    ensures Run(threshold, flag0, fs[..n]).crashed ==> Run(threshold, flag0, fs) == Run(threshold, flag0, fs[..n])
    ensures !Run(threshold, flag0, fs[..n]).crashed ==>
      n <= |Run(threshold, flag0, fs).sent| && Run(threshold, flag0, fs).sent[..n] == Run(threshold, flag0, fs[..n]).sent
    decreases |fs|
  {
    if n < |fs| {
      var init := fs[..|fs| - 1];
      assert init[..n] == fs[..n];
      RunPrefix(threshold, flag0, init, n);
      var prev := Run(threshold, flag0, init);
      if !prev.crashed {
        assert |prev.sent| == |init|;
        match Respond(threshold, prev.flag, fs[|fs| - 1])
        case Crash =>
        case Step(m, w) =>
          assert (prev.sent + [m])[..n] == prev.sent[..n];
      }
    } else {
      assert fs[..n] == fs;
    }
  }

  /** One more outcome: the loop, not yet crashed, runs check `i` from the flag it has. */
  lemma RunSnoc(threshold: real, flag0: bool, fs: seq<Fetch>, i: nat)
    requires i < |fs| && !Run(threshold, flag0, fs[..i]).crashed
    ensures var prev := Run(threshold, flag0, fs[..i]);
      var r := Respond(threshold, prev.flag, fs[i]);
      Run(threshold, flag0, fs[..i + 1]) ==
        if r.Crash? then Trace(prev.sent, prev.flag, true)
        else Trace(prev.sent + [r.sent], NextFlag(prev.flag, r.write), false)
  {
    var s := fs[..i + 1];
    assert s[..|s| - 1] == fs[..i];
    assert s[|s| - 1] == fs[i];
  }

  /** The loop has consumed its outcomes once all are used or one crashed. */
  lemma RunDone(threshold: real, flag0: bool, fs: seq<Fetch>, i: nat)
    requires i <= |fs| && (i == |fs| || Run(threshold, flag0, fs[..i]).crashed)
    ensures Run(threshold, flag0, fs) == Run(threshold, flag0, fs[..i])
  {
    if i == |fs| {
      assert fs[..i] == fs;
    } else {
      RunPrefix(threshold, flag0, fs, i);
    }
  }

  /** Message `i` is what check `i` sent, from the flag the loop had before it. */
  lemma SentAt(threshold: real, flag0: bool, fs: seq<Fetch>, i: nat)
    requires i < |Run(threshold, flag0, fs).sent|
    ensures !Run(threshold, flag0, fs[..i]).crashed
    ensures Respond(threshold, Run(threshold, flag0, fs[..i]).flag, fs[i]).Step?
    ensures Run(threshold, flag0, fs).sent[i] == Respond(threshold, Run(threshold, flag0, fs[..i]).flag, fs[i]).sent
  {
    var t := Run(threshold, flag0, fs);
    var s := fs[..i + 1];
    assert s[..|s| - 1] == fs[..i];
    assert s[|s| - 1] == fs[i];
    RunPrefix(threshold, flag0, fs, i + 1);
    var u := Run(threshold, flag0, s);
    assert !u.crashed;
    assert t.sent[..i + 1] == u.sent;
    var prev := Run(threshold, flag0, fs[..i]);
    assert !prev.crashed && |prev.sent| == i;
    match Respond(threshold, prev.flag, fs[i])
    case Crash =>
      assert false;
    case Step(m, w) =>
      assert u.sent == prev.sent + [m];
      assert t.sent[i] == u.sent[i] == m;
  }

  /** Until it crashes, the loop's flag is the below-threshold-ness of the last successful reading. */
  lemma {:induction false} FlagTracksLastReading(threshold: real, flag0: bool, fs: seq<Fetch>)
    requires !Run(threshold, flag0, fs).crashed
    ensures Run(threshold, flag0, fs).flag == ExpectedFlag(threshold, flag0, fs)
    decreases |fs|
  {
    if fs != [] {
      FlagTracksLastReading(threshold, flag0, fs[..|fs| - 1]);
    }
  }

  /** An alert is sent exactly on a reading below the threshold when the previous state was "not below". */
  lemma AlertOnFallingEdge(threshold: real, flag0: bool, fs: seq<Fetch>, i: nat)
    requires i < |Run(threshold, flag0, fs).sent|
    ensures IsAlert(Run(threshold, flag0, fs).sent[i]) <==>
      Reading(fs[i]).Some? && Reading(fs[i]).value < threshold && !ExpectedFlag(threshold, flag0, fs[..i])
  {
    SentAt(threshold, flag0, fs, i);
    FlagTracksLastReading(threshold, flag0, fs[..i]);
  }

  /** The last reading of `s` comes at or after any reading of `s`. */
  lemma {:induction false} LastReadingAt(s: seq<Fetch>, i: nat) returns (k: nat)
    requires i < |s| && Reading(s[i]).Some?
    ensures i <= k < |s| && Reading(s[k]) == LastReading(s) && LastReading(s).Some?
    decreases |s|
  {
    if Reading(s[|s| - 1]).Some? {
      k := |s| - 1;
    } else {
      var init := s[..|s| - 1];
      assert init[i] == s[i];
      k := LastReadingAt(init, i);
      assert init[k] == s[k];
    }
  }

  /** A successful reading at or above the threshold. */
  predicate AtOrAbove(threshold: real, f: Fetch) {
    Reading(f).Some? && Reading(f).value >= threshold
  }

  /** Between any two alerts the loop saw a reading at or above the threshold. */
  lemma AlertsSeparated(threshold: real, flag0: bool, fs: seq<Fetch>, i: nat, j: nat)
    requires i < j < |Run(threshold, flag0, fs).sent|
    requires IsAlert(Run(threshold, flag0, fs).sent[i]) && IsAlert(Run(threshold, flag0, fs).sent[j])
    ensures exists k :: i < k < j && AtOrAbove(threshold, fs[k])
  {
    AlertOnFallingEdge(threshold, flag0, fs, i);
    AlertOnFallingEdge(threshold, flag0, fs, j);
    var s := fs[..j];
    assert s[i] == fs[i];
    var k := LastReadingAt(s, i);
    assert s[k] == fs[k];
    assert !ExpectedFlag(threshold, flag0, s);
    assert LastReading(s) == Reading(fs[k]) && Reading(fs[k]).Some?;
  }

  /** Outcomes that are all successful readings below the threshold alert at most once: on the first, if not yet notified. */
  lemma StaysBelowAlertsOnce(threshold: real, flag0: bool, fs: seq<Fetch>, i: nat)
    requires forall k :: 0 <= k < |fs| ==> Reading(fs[k]).Some? && Reading(fs[k]).value < threshold
    requires i < |fs|
    ensures i < |Run(threshold, flag0, fs).sent|
    ensures IsAlert(Run(threshold, flag0, fs).sent[i]) <==> i == 0 && !flag0
    ensures !IsAlert(Run(threshold, flag0, fs).sent[i]) ==> Run(threshold, flag0, fs).sent[i] == None
  {
    CrashesExactlyOnMalformed(threshold, flag0, fs);
    AlertOnFallingEdge(threshold, flag0, fs, i);
    SentAt(threshold, flag0, fs, i);
    if i > 0 {
      var s := fs[..i];
      assert Reading(s[|s| - 1]).Some?;
    }
  }

  /**
   * The loop survives failed requests and API errors; it crashes exactly when
   * some outcome it is given is a malformed body.
   */
  lemma {:induction false} CrashesExactlyOnMalformed(threshold: real, flag0: bool, fs: seq<Fetch>)
    ensures Run(threshold, flag0, fs).crashed <==> exists k :: 0 <= k < |fs| && Malformed(fs[k])
    decreases |fs|
  {
    if fs != [] {
      var s := fs[..|fs| - 1];
      CrashesExactlyOnMalformed(threshold, flag0, s);
      if exists k :: 0 <= k < |s| && Malformed(s[k]) {
        var k :| 0 <= k < |s| && Malformed(s[k]);
        assert fs[k] == s[k];
      }
      if exists k :: 0 <= k < |fs| && Malformed(fs[k]) {
        var k :| 0 <= k < |fs| && Malformed(fs[k]);
        if k < |s| {
          assert s[k] == fs[k];
        }
      }
    }
  }
}
