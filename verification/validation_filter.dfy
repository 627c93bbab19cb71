/** `ValidationFilter`: turns the validator's errors into the 422 body. The
    current translation context, if any, is a parameter. */
module ValidationFilter {
  import opened Wrappers

  /** One failed property: its name and its constraints as (constraint,
      message) pairs in insertion order; `None` when `constraints` is unset. */
  datatype ValidationError = ValidationError(property: string, constraints: Option<seq<(string, string)>>)

  /** The response body. */
  datatype Body = Body(statusCode: int, message: string, errors: map<string, seq<string>>)

  const UnprocessableEntity := 422
  const InvalidDataKey := "validation.invalid_data"
  const InvalidDataFallback := "The given data was invalid"

  /** `Object.values(error.constraints || {})`. */
  function Messages(constraints: Option<seq<(string, string)>>): (r: seq<string>)
    ensures constraints.None? ==> r == []
    ensures constraints.Some? ==> |r| == |constraints.value| && forall i :: 0 <= i < |r| ==> r[i] == constraints.value[i].1
  {
    match constraints
    case None => []
    case Some(cs) => seq(|cs|, i requires 0 <= i < |cs| => cs[i].1)
  }

  /** The properties that failed. */
  function Properties(errors: seq<ValidationError>): set<string> {
    set i | 0 <= i < |errors| :: errors[i].property
  }

  /** Index of the last error on `p`, or -1. */
  function LastWith(errors: seq<ValidationError>, p: string): (k: int)
    ensures -1 <= k < |errors|
    ensures k >= 0 ==> errors[k].property == p && forall j :: k < j < |errors| ==> errors[j].property != p
    ensures k == -1 <==> forall j :: 0 <= j < |errors| ==> errors[j].property != p
  {
    if |errors| == 0 then -1
    else if errors[|errors| - 1].property == p then |errors| - 1
    else LastWith(errors[..|errors| - 1], p)
  }

  /** `errorFormatter`: `errors.forEach(e => result[e.property] = ...)`. */
  function ErrorFormatter(errors: seq<ValidationError>): (r: map<string, seq<string>>)
    ensures r.Keys == Properties(errors)
  {
    if |errors| == 0 then map[]
    else
      var init := errors[..|errors| - 1];
      var last := errors[|errors| - 1];
      assert Properties(errors) == Properties(init) + {last.property} by {
        forall p | p in Properties(errors) ensures p in Properties(init) + {last.property} {
          var i :| 0 <= i < |errors| && errors[i].property == p;
          if i < |init| {
            assert init[i] == errors[i];
          }
        }
        forall p | p in Properties(init) ensures p in Properties(errors) {
          var i :| 0 <= i < |init| && init[i].property == p;
          assert errors[i] == init[i];
        }
      }
      ErrorFormatter(init)[last.property := Messages(last.constraints)]
  }

  /** For each property, the messages of its last error win. */
  lemma {:induction false} LastErrorWins(errors: seq<ValidationError>, p: string)
    requires p in Properties(errors)
    ensures LastWith(errors, p) >= 0
    ensures ErrorFormatter(errors)[p] == Messages(errors[LastWith(errors, p)].constraints)
  {
    var init := errors[..|errors| - 1];
    if errors[|errors| - 1].property != p {
      var i :| 0 <= i < |errors| && errors[i].property == p;
      assert init[i] == errors[i];
      LastErrorWins(init, p);
    }
  }

  /** `responseBodyFormatter`: status 422, the translated or fallback
      message, and the formatted errors. */
  function ResponseBody(translate: Option<string -> string>, formatted: map<string, seq<string>>): (b: Body)
    ensures b.statusCode == 422 && b.errors == formatted
    ensures translate.Some? ==> b.message == translate.value("validation.invalid_data")
    ensures translate.None? ==> b.message == "The given data was invalid"
  {
    Body(
      UnprocessableEntity,
      match translate
      case Some(t) => t(InvalidDataKey)
      case None => InvalidDataFallback,
      formatted)
  }

  /** The filter end to end: one entry per failed property, holding the
      messages of its last error. */
  lemma FilterBody(translate: Option<string -> string>, errors: seq<ValidationError>)
    ensures var b := ResponseBody(translate, ErrorFormatter(errors));
      && b.statusCode == 422
      && b.errors.Keys == Properties(errors)
      && forall i :: 0 <= i < |errors| ==>
           b.errors[errors[i].property] == Messages(errors[LastWith(errors, errors[i].property)].constraints)
  {
    forall i | 0 <= i < |errors|
      ensures ErrorFormatter(errors)[errors[i].property] == Messages(errors[LastWith(errors, errors[i].property)].constraints)
    {
      LastErrorWins(errors, errors[i].property);
    }
  }
}
