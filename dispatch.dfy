/** The decision `ServeHTTP` takes on each request: answer 503 when the
    selector finds no backend, otherwise hand the request to the selected
    backend's reverse proxy. */
module Dispatch {
  import opened Selection

  /** `http.StatusServiceUnavailable`. */
  const STATUS_SERVICE_UNAVAILABLE: nat := 503

  /** The error text passed to `http.Error`. */
  const UNAVAILABLE_MESSAGE: string := "Service unavailable"

  datatype Response =
    | Unavailable(status: nat, message: string)  // written by `http.Error`
    | Forward(backend: nat)                      // relayed by that backend's proxy

  /** The response for the selector's answer `selected`. */
  function Respond(selected: Option<nat>): (response: Response)
    ensures response.Unavailable? <==> selected.None?
    ensures response.Unavailable? ==>
      response.status == 503 && response.message == "Service unavailable"
    ensures response.Forward? ==> response.backend == selected.value
  {
    match selected
    case None => Unavailable(STATUS_SERVICE_UNAVAILABLE, UNAVAILABLE_MESSAGE)
    case Some(j) => Forward(j)
  }

  /** A request is answered 503 exactly when every backend is dead; otherwise
      it is forwarded to the first live backend in cyclic order from `start`. */
  lemma RespondUnavailableIffAllDead(alive: seq<bool>, start: nat)
    requires start < |alive|
    ensures (Respond(Select(alive, start)) ==
             Unavailable(STATUS_SERVICE_UNAVAILABLE, UNAVAILABLE_MESSAGE)) <==> AllDead(alive)
    ensures Respond(Select(alive, start)).Forward? ==>
      FirstLiveFrom(alive, start, Respond(Select(alive, start)).backend)
  {
    SelectNoneIffAllDead(alive, start);
    if Select(alive, start).Some? {
      SelectIsFirstLive(alive, start);
    }
  }
}
