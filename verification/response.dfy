/**
  The JSON body the control endpoint answers with, and an independent
  reader for it.
 */
module Response {
  import opened Wrappers

  /** Text before the boolean literal in every response body. */
  const StateKey: string := "{\"state\": "

  /** The response body written for actuator flag `state`. */
  function Body(state: bool): (text: string)
    ensures ParseBody(text) == Some(state)
    ensures |text| == if state then 15 else 16
  {
    if state then "{\"state\": true}" else "{\"state\": false}"
  }

  /**
    Reads a body of the shape `{"state": <literal>}` back into the flag
    it reports; `None` for any other text.
   */
  function ParseBody(text: string): Option<bool>
  {
    if |text| <= |StateKey| || text[..|StateKey|] != StateKey || text[|text| - 1] != '}' then None
    else
      var literal := text[|StateKey|..|text| - 1];
      if literal == "true" then Some(true)
      else if literal == "false" then Some(false)
      else None
  }

  /** Different flags never render to the same body. */
  lemma BodyDistinguishesStates(a: bool, b: bool)
    ensures Body(a) == Body(b) <==> a == b
  {
  }
}
