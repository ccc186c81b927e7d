/** Conversion helpers of the server (backend/src/ext.rs). */
module Ext {
  import opened Base

  /** `IntoResult for Option<T>`: `Some` becomes `Ok` with the same value,
      `None` becomes the error whose text is "None". Total: it never panics. */
  function IntoResult<T>(o: Option<T>): (r: Result<T>)
    ensures r.Ok? <==> o.Some?
    ensures r.Ok? ==> r.value == o.value
    ensures r.Err? ==> r.error == NoneValue
  {
    match o
    case Some(t) => Ok(t)
    case None => Err(NoneValue)
  }

  /** `into_result` loses nothing: forgetting the error gives the option back. */
  lemma IntoResultRoundTrip<T>(o: Option<T>)
    ensures ToOption(IntoResult(o)) == o
  {
  }
}
