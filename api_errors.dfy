/** The error envelope `{errors: [...]}` and the outcome of a controller call. */
module ApiException {
  import opened Failures

  /** One entry of a `BindingResult`: the offending field and its default message. */
  datatype ObjectError = ObjectError(field: string, defaultMessage: string)

  /** What a controller answers: a body, a 404, or a 400 with the error list. */
  datatype Response<T> = Ok(body: T) | NotFound | BadRequest(errors: seq<string>)

  /** The default messages of a binding result, one per error, in order. */
  function Messages(bindingResult: seq<ObjectError>): (r: seq<string>)
    ensures |r| == |bindingResult|
    ensures forall i :: 0 <= i < |r| ==> r[i] == bindingResult[i].defaultMessage
  {
    if bindingResult == [] then []
    else Messages(bindingResult[..|bindingResult| - 1]) + [bindingResult[|bindingResult| - 1].defaultMessage]
  }

  /** The envelope built from a business exception: its message alone. */
  function BusinessErrors(e: ServiceError): (r: seq<string>)
    ensures |r| == 1 && r[0] == e.message
  {
    [e.message]
  }

  class ApiErrors {
    var errors: seq<string>

    /** Appends the default message of every error of the binding result. */
    constructor FromBindingResult(bindingResult: seq<ObjectError>)
      ensures errors == Messages(bindingResult)
      ensures |errors| == |bindingResult|
      ensures forall i :: 0 <= i < |errors| ==> errors[i] == bindingResult[i].defaultMessage
    {
      errors := [];
      new;
      var k := 0;
      while k < |bindingResult|
        invariant 0 <= k <= |bindingResult|
        invariant errors == Messages(bindingResult[..k])
      {
        assert bindingResult[..k + 1][..k] == bindingResult[..k];
        errors := errors + [bindingResult[k].defaultMessage];
        k := k + 1;
      }
      assert bindingResult[..k] == bindingResult;
    }

    /** A one-element list holding the exception's message. */
    constructor FromBusinessException(e: ServiceError)
      ensures errors == BusinessErrors(e)
      ensures errors == [e.message]
    {
      errors := [e.message];
    }

    method GetErrors() returns (r: seq<string>)
      ensures r == errors
    {
      r := errors;
    }
  }
}
