/**
 * Reservation: the checks a slot reservation request goes through, in order,
 * and the (success, message) pair it ends with. The upstream reservation
 * service is not called here; its answer is a parameter.
 */
module Reservation {

  import opened Wrappers
  import opened DateTimes
  import opened TakeSlot

  /** The upstream service's answer: the numeric status code and its HttpStatusCode name. */
  datatype HttpStatus = HttpStatus(code: int, name: string)

  /** HttpResponseMessage.IsSuccessStatusCode: a 2xx status. */
  predicate IsSuccessStatusCode(status: HttpStatus) {
    200 <= status.code <= 299
  }

  const Ok: HttpStatus := HttpStatus(200, "OK")
  const BadRequest: HttpStatus := HttpStatus(400, "BadRequest")

  const StartAfterEndMessage: string := "Slot has to start before ending"
  const NoPatientMessage: string := "Patient data cannot be empty"
  const ReservedMessage: string := "Slot has been reserved successfully"
  const UpstreamFailurePrefix: string := "Slot reservation API returned "

  /** The validation failures' messages, joined by ", ". */
  function JoinMessages(failures: seq<ValidationFailure>): string {
    if failures == [] then ""
    else if |failures| == 1 then failures[0].errorMessage
    else failures[0].errorMessage + ", " + JoinMessages(failures[1..])
  }

  /**
   * The checks made before the request is sent, first failure wins: the start
   * after the end (compared as instants), then a missing patient, then the
   * patient's validation failures. None means the request may be sent.
   */
  function Precheck(request: SlotReservationRequest): Option<string> {
    if UtcTicks(request.start) > UtcTicks(request.end) then Some(StartAfterEndMessage)
    else if request.patient.None? then Some(NoPatientMessage)
    else if !IsValid(request.patient.value) then Some(JoinMessages(Validate(request.patient.value)))
    else None
  }

  /**
   * TakeSlot: a failed precheck ends the reservation with its message; otherwise
   * the upstream status decides (SlotManager.TakeSlot maps a non-success status
   * to false and the failure names the status).
   */
  function Reserve(request: SlotReservationRequest, upstream: HttpStatus): (r: (bool, string)) {
    match Precheck(request)
    case Some(message) => (false, message)
    case None =>
      if !IsSuccessStatusCode(upstream) then (false, UpstreamFailurePrefix + upstream.name)
      else (true, ReservedMessage)
  }

  /** A request passes the precheck exactly when it is ordered, has a patient and the patient is valid. */
  lemma PrecheckPassesIff(request: SlotReservationRequest)
    ensures Precheck(request).None? <==>
      UtcTicks(request.start) <= UtcTicks(request.end) && request.patient.Some? && IsValid(request.patient.value)
  {
  }

  /** A reservation succeeds exactly when the precheck passes and the upstream answers with a 2xx status. */
  lemma ReserveSucceedsIff(request: SlotReservationRequest, upstream: HttpStatus)
    ensures Reserve(request, upstream).0 <==> Precheck(request).None? && IsSuccessStatusCode(upstream)
    ensures Reserve(request, upstream).0 ==> Reserve(request, upstream).1 == ReservedMessage
  {
  }

  /** When the precheck fails the upstream is never consulted: any answer gives the same outcome. */
  lemma PrecheckFailureIgnoresUpstream(request: SlotReservationRequest, upstream: HttpStatus, other: HttpStatus)
    requires Precheck(request).Some?
    ensures Reserve(request, upstream) == Reserve(request, other) == (false, Precheck(request).value)
  {
  }

  /** A start after the end is reported whatever the patient and the upstream. */
  lemma StartAfterEndWins(request: SlotReservationRequest, upstream: HttpStatus)
    requires UtcTicks(request.start) > UtcTicks(request.end)
    ensures Reserve(request, upstream) == (false, StartAfterEndMessage)
  {
  }

  /** The messages of the failures appear in order: one failure is its own message, more are separated by ", ". */
  lemma {:induction false} JoinMessagesAppend(a: seq<ValidationFailure>, f: ValidationFailure)
    requires a != []
    ensures JoinMessages(a + [f]) == JoinMessages(a) + ", " + f.errorMessage
    decreases |a|
  {
    if |a| == 1 {
      assert (a + [f])[1..] == [f];
    } else {
      assert (a + [f])[1..] == a[1..] + [f];
      JoinMessagesAppend(a[1..], f);
    }
  }

  /** A request built like the tests': the given bounds, the given patient. */
  function TestRequest(start: int, end: int, offset: int, patient: Option<Patient>): SlotReservationRequest {
    SlotReservationRequest("facility", DateTimeOffset(start, offset), DateTimeOffset(end, offset),
                           Some("someTestComments"), patient)
  }

  /** A valid patient and a ten-minute slot pass the precheck. */
  lemma ValidRequestPasses(now: int, offset: int)
    ensures Precheck(TestRequest(now, now + 10 * TicksPerMinute, offset, Some(TestPatient("John")))).None?
  {
    TestPatientValid();
  }

  /** A request that passes the precheck is reserved on OK and reported by the status name on BadRequest. */
  lemma UpstreamOutcomes(request: SlotReservationRequest)
    requires Precheck(request).None?
    ensures Reserve(request, Ok) == (true, "Slot has been reserved successfully")
    ensures Reserve(request, BadRequest) == (false, "Slot reservation API returned BadRequest")
  {
    var m := UpstreamFailurePrefix + BadRequest.name;
    var expected := "Slot reservation API returned BadRequest";
    assert |m| == |expected|;
    assert forall k :: 0 <= k < |m| ==> m[k] == expected[k];
    assert m == expected;
  }

  /** The tests' valid request: reserved on OK, reported by the status name on BadRequest. */
  lemma ValidRequestOutcomes(now: int, offset: int)
    ensures Reserve(TestRequest(now, now + 10 * TicksPerMinute, offset, Some(TestPatient("John"))), Ok)
            == (true, "Slot has been reserved successfully")
    ensures Reserve(TestRequest(now, now + 10 * TicksPerMinute, offset, Some(TestPatient("John"))), BadRequest)
            == (false, "Slot reservation API returned BadRequest")
  {
    ValidRequestPasses(now, offset);
    UpstreamOutcomes(TestRequest(now, now + 10 * TicksPerMinute, offset, Some(TestPatient("John"))));
  }

  /** The start ten minutes after the end, or no patient: rejected with the test's messages. */
  lemma RejectedRequestOutcomes(now: int, offset: int, upstream: HttpStatus)
    ensures Reserve(TestRequest(now + 10 * TicksPerMinute, now, offset, Some(TestPatient("John"))), upstream)
            == (false, "Slot has to start before ending")
    ensures Reserve(TestRequest(now, now + 10 * TicksPerMinute, offset, None), upstream)
            == (false, "Patient data cannot be empty")
  {
  }

  /** An empty name: rejected with "'Name' must not be empty.". */
  lemma EmptyNameOutcome(now: int, offset: int, upstream: HttpStatus)
    ensures Reserve(TestRequest(now, now + 10 * TicksPerMinute, offset, Some(TestPatient(""))), upstream)
            == (false, "'Name' must not be empty.")
  {
    EmptyNameFailure();
  }
}
