/**
 * The root component's identity state: `userName` starts empty and is set
 * from the whoami response once, when the component mounts.
 */
module App {

  /**
   * How the whoami request resolves: `Threw` when `fetch` rejects or the
   * body is not JSON (`response.json()` is awaited before `response.ok` is
   * looked at, so this covers every status); `Received` with the status and
   * the body's `name` otherwise.
   */
  datatype FetchOutcome = Threw | Received(status: int, name: string)

  /** `response.ok`: a status in the range 200-299. */
  predicate IsOk(status: int) { 200 <= status <= 299 }

  /** The name after the effect: the response's on an ok response, the old one otherwise. */
  function AfterFetch(userName: string, outcome: FetchOutcome): (next: string)
    ensures outcome.Received? && IsOk(outcome.status) ==> next == outcome.name
    ensures !(outcome.Received? && IsOk(outcome.status)) ==> next == userName
  {
    match outcome
    case Threw => userName
    case Received(status, name) => if IsOk(status) then name else userName
  }

  class AppState {
    var userName: string

    constructor ()
      ensures userName == ""
    {
      userName := "";
    }

    /** `fetchUserData`: every failure is caught and leaves the name as it was. */
    method FetchUserData(outcome: FetchOutcome)
      modifies this
      ensures userName == AfterFetch(old(userName), outcome)
    {
      match outcome {
        case Threw =>
        case Received(status, name) =>
          if IsOk(status) {
            userName := name;
          }
      }
    }
  }
}
