/** The relay's own variables, and the loop that reads a response body within its bounds. */
module RelayServer {
  import opened Wrappers
  import opened Relay

  const MAX_RELAY_REQUESTS := 8

  /** The closure of `startPhase5Relay`. */
  class RelayServer {
    var observations: map<string, Observation>
    var violations: seq<Violation>
    var relayBudgetUsed: nat

    constructor ()
      ensures observations == map[] && violations == [] && relayBudgetUsed == 0
    {
      observations := map[];
      violations := [];
      relayBudgetUsed := 0;
    }

    /** The step `Recorded` of the interleaved model, in place. */
    method RecordObservation(operationId: string, observation: Observation)
      modifies this`observations, this`violations
      ensures forall exchanges, fetches, attempts: nat ::
                var s := System(exchanges, old(observations), old(violations), fetches, attempts);
                Recorded(s, operationId, observation) == System(exchanges, observations, violations, fetches, attempts + 1)
    {
      if operationId in observations {
        violations := violations + [ObservationAlreadyRecorded];
        return;
      }
      observations := observations[operationId := observation];
    }

    /** What this means for a caller over a whole run is `RelaySafety.TakenIsFirst`. */
    method TakeObservation(operationId: string) returns (observation: Option<Observation>)
      ensures observation == Taken(observations, operationId)
    {
      observation := if operationId in observations then Some(observations[operationId]) else None;
    }

    /** One unit of the relay-wide budget, which nothing gives back. */
    method ConsumeRelayBudget() returns (granted: bool)
      requires relayBudgetUsed <= MAX_RELAY_REQUESTS
      modifies this`relayBudgetUsed
      ensures granted == (old(relayBudgetUsed) < 8)
      ensures relayBudgetUsed == old(relayBudgetUsed) + (if granted then 1 else 0) <= 8
    {
      if relayBudgetUsed >= MAX_RELAY_REQUESTS { return false; }
      relayBudgetUsed := relayBudgetUsed + 1;
      granted := true;
    }
  }

  // ----- the body loop of `defaultFetch` -----

  function Flatten(chunks: seq<seq<int>>): seq<int> {
    if chunks == [] then [] else Flatten(chunks[..|chunks| - 1]) + chunks[|chunks| - 1]
  }

  datatype Body = Body(bytes: seq<int>, complete: bool)

  datatype ReadError = ReadFailed

  lemma FlattenStep(chunks: seq<seq<int>>, i: nat)
    requires i < |chunks|
    ensures Flatten(chunks[..i + 1]) == Flatten(chunks[..i]) + chunks[i]
  {
    assert chunks[..i + 1][..i] == chunks[..i];
  }

  lemma {:induction false} FlattenPrefix(chunks: seq<seq<int>>, i: nat)
    requires i <= |chunks|
    ensures |Flatten(chunks[..i])| <= |Flatten(chunks)|
    decreases |chunks| - i
  {
    if i == |chunks| {
      assert chunks[..i] == chunks;
    } else {
      FlattenStep(chunks, i);
      FlattenPrefix(chunks, i + 1);
    }
  }

  /** The signal, the reads and the bound all let the whole stream through. */
  predicate WholeStream(chunks: seq<seq<int>>, aborted: seq<bool>, failsAt: Option<nat>, max: nat) {
    && |Flatten(chunks)| <= max
    && (forall i :: 0 <= i < |aborted| ==> !aborted[i])
    && (failsAt.Some? ==> failsAt.value >= |aborted|)
  }

  /**
    `chunks` is what the stream would deliver, `aborted[i]` what the signal says before the read
    number `i`, and `failsAt` the read that throws, if any. `taken` chunks are accepted: the body is
    their concatenation, within the bound, and it is complete iff nothing stood in the stream's way.
   */
  method ReadBody(chunks: seq<seq<int>>, aborted: seq<bool>, failsAt: Option<nat>, max: nat)
    returns (r: Result<Body, ReadError>, taken: nat)
    requires |aborted| == |chunks| + 1
    ensures taken <= |chunks| && |Flatten(chunks[..taken])| <= max
    ensures forall i :: 0 <= i < taken ==> !aborted[i] && failsAt != Some(i)
    ensures r.Err? <==> !aborted[taken] && failsAt == Some(taken)
    ensures r.Ok? ==> r.value.bytes == Flatten(chunks[..taken])
    ensures r.Ok? && r.value.complete ==> taken == |chunks|
    ensures r.Ok? && r.value.complete <==> WholeStream(chunks, aborted, failsAt, max)
    ensures r.Ok? && !r.value.complete ==>
              aborted[taken] || (taken < |chunks| && |Flatten(chunks[..taken])| + |chunks[taken]| > max)
  {
    var accepted: seq<seq<int>> := [];
    var total, complete := 0, true;
    taken := 0;
    while true
      invariant taken <= |chunks| && accepted == chunks[..taken]
      invariant total == |Flatten(accepted)| <= max && complete
      invariant forall i :: 0 <= i < taken ==> !aborted[i] && failsAt != Some(i)
      decreases |chunks| - taken
    {
      if aborted[taken] {
        complete := false;
        break;
      }
      if failsAt == Some(taken) { return Err(ReadFailed), taken; }
      if taken == |chunks| { break; }
      var chunk := chunks[taken];
      if total + |chunk| > max {
        complete := false;
        break;
      }
      FlattenStep(chunks, taken);
      accepted := accepted + [chunk];
      total := total + |chunk|;
      taken := taken + 1;
    }
    if taken < |chunks| {
      FlattenStep(chunks, taken);
      FlattenPrefix(chunks, taken + 1);
    }
    assert chunks[..|chunks|] == chunks;
    var bytes := Assemble(accepted, total);
    r := Ok(Body(bytes, complete));
  }

  /** `body.set(chunk, offset)` for every chunk in turn fills a buffer of the counted size exactly. */
  method Assemble(chunks: seq<seq<int>>, total: nat) returns (bytes: seq<int>)
    requires total == |Flatten(chunks)|
    ensures bytes == Flatten(chunks)
  {
    var body := new int[total];
    var offset := 0;
    for i := 0 to |chunks|
      invariant offset == |Flatten(chunks[..i])| <= total
      invariant body[..offset] == Flatten(chunks[..i])
    {
      var chunk := chunks[i];
      FlattenStep(chunks, i);
      FlattenPrefix(chunks, i + 1);
      forall k | 0 <= k < |chunk| { body[offset + k] := chunk[k]; }
      assert body[..offset + |chunk|] == Flatten(chunks[..i]) + chunk;
      offset := offset + |chunk|;
    }
    assert chunks[..|chunks|] == chunks;
    bytes := body[..];
  }
}
