/** The accept/reject branching of the prediction endpoint: an empty body is
    refused before validation, a body with validation errors is refused with
    those errors, and only a fully valid body reaches the classifier. */
module Predict {
  import opened Json
  import opened Schema
  import opened Validator

  /** The decoded request body: absent, or a JSON value. */
  datatype Body = NoBody | Decoded(data: JValue)

  /** What the endpoint answers. `ServerError` stands for a Python exception
      caught by the handler's catch-all (reply 500). */
  datatype Response =
    | NoPayload(error: string)
    | InvalidFeatures(errors: seq<string>)
    | ServerError
    | Prediction(prediction: int)

  /** The HTTP status of a response. */
  function StatusCode(r: Response): (code: int)
    ensures code == 200 <==> r.Prediction?
    ensures code == 400 <==> r.NoPayload? || r.InvalidFeatures?
    ensures code == 500 <==> r.ServerError?
  {
    match r
    case NoPayload(_) => 400
    case InvalidFeatures(_) => 400
    case ServerError => 500
    case Prediction(_) => 200
  }

  /** Python's `name in data` for a body that is a list or a string: list
      membership compares with `==`, so only a string element equal to the
      name matches; for a string it is a substring test. */
  predicate ContainsName(data: JValue, name: string)
    requires data.JArray? || data.JStr?
    ensures data.JArray? ==>
              (ContainsName(data, name) <==> exists k | 0 <= k < |data.items| :: data.items[k] == JStr(name))
    ensures data.JStr? && ContainsName(data, name) ==> |name| <= |data.s|
    ensures data.JStr? && (name == [] || name == data.s) ==> ContainsName(data, name)
  {
    if data.JArray? then JStr(name) in data.items else IsSubstring(name, data.s)
  }

  /** How the validation loop ends on a list or string body: it raises at a
      name that `in` finds, or it returns the errors it collected. */
  datatype SequenceRun = Raised | Reported(errors: seq<string>)

  /** The validation loop over `schema` on a list or string body, row by row:
      a name that `in` does not find is reported missing; the first name it
      finds is then used as an index (`data[name]`), which raises `TypeError`. */
  function RunSequence(schema: seq<Feature>, data: JValue): (run: SequenceRun)
    requires data.JArray? || data.JStr?
    // when it does not raise, every row was reported missing, in table order
    ensures run.Reported? ==>
              |run.errors| == |schema| &&
              forall i :: 0 <= i < |schema| ==> run.errors[i] == MissingMessage(schema[i].name)
  {
    if schema == [] then Reported([])
    else if ContainsName(data, schema[0].name) then Raised
    else
      match RunSequence(schema[1..], data)
      case Raised => Raised
      case Reported(rest) => Reported([MissingMessage(schema[0].name)] + rest)
  }

  /** The loop raises exactly when `in` finds some name of the table. */
  lemma {:induction false} RaisesIffSomeNameFound(schema: seq<Feature>, data: JValue)
    requires data.JArray? || data.JStr?
    ensures RunSequence(schema, data).Raised? <==>
              exists i | 0 <= i < |schema| :: ContainsName(data, schema[i].name)
  {
    if schema != [] {
      RaisesIffSomeNameFound(schema[1..], data);
      if exists i | 0 <= i < |schema| :: ContainsName(data, schema[i].name) {
        var i :| 0 <= i < |schema| && ContainsName(data, schema[i].name);
        if i > 0 {
          assert schema[1..][i - 1] == schema[i];
        }
      }
      if RunSequence(schema, data).Raised? && !ContainsName(data, schema[0].name) {
        var j :| 0 <= j < |schema[1..]| && ContainsName(data, schema[1..][j].name);
        assert schema[j + 1] == schema[1..][j];
      }
    }
  }

  /** A loop that does not raise reports the same errors as an object holding
      none of the features. */
  lemma NotRaisedLikeEmptyObject(schema: seq<Feature>, data: JValue)
    requires data.JArray? || data.JStr?
    requires RunSequence(schema, data).Reported?
    ensures RunSequence(schema, data) == Reported(Errors(schema, map[]))
  {
    NothingPresent(schema, map[]);
  }

  /** The reply to a non-empty list or string body, validated against `schema`. */
  function ValidateSequenceBody(schema: seq<Feature>, data: JValue): (r: Response)
    requires data.JArray? || data.JStr?
    // 500 exactly when `in` finds some feature name in the body
    ensures r.ServerError? <==> exists i | 0 <= i < |schema| :: ContainsName(data, schema[i].name)
    // otherwise every feature is reported missing, as for an empty object
    ensures !r.ServerError? ==> r == InvalidFeatures(Errors(schema, map[]))
    ensures !r.ServerError? ==> |r.errors| == |schema|
  {
    RaisesIffSomeNameFound(schema, data);
    match RunSequence(schema, data)
    case Raised => ServerError
    case Reported(errors) =>
      NotRaisedLikeEmptyObject(schema, data);
      InvalidFeatures(errors)
  }

  /** The decision part of `predict()`, with the classifier as a parameter.
      Its input is the validated vector; it stands for converting the vector
      to a one-row array and calling the loaded model on it. */
  method HandlePredict(body: Body, classify: seq<JValue> -> int) returns (response: Response)
    // an absent or falsy body is refused before validation
    ensures response.NoPayload? <==> body.NoBody? || !Truthy(body.data)
    ensures response.NoPayload? ==> response.error == "No JSON payload received!"
    // a non-empty object is validated; its errors, if any, are the reply
    ensures body.Decoded? && body.data.JObject? && Truthy(body.data) ==>
              var errors := Errors(FeatureSchema(), body.data.fields);
              response == if errors == [] then Prediction(classify(Vector(FeatureSchema(), body.data.fields)))
                          else InvalidFeatures(errors)
    // the classifier is reached only with no errors and a full vector
    ensures response.Prediction? ==>
              body.Decoded? && body.data.JObject? &&
              Errors(FeatureSchema(), body.data.fields) == [] &&
              |Vector(FeatureSchema(), body.data.fields)| == |FeatureSchema()| &&
              response.prediction == classify(Vector(FeatureSchema(), body.data.fields))
    ensures response.InvalidFeatures? ==> response.errors != []
    // `in` on a number or a boolean raises TypeError
    ensures body.Decoded? && Truthy(body.data) &&
              (body.data.JInt? || body.data.JFloat? || body.data.JBool?) ==>
              response == ServerError
    ensures body.Decoded? && Truthy(body.data) && (body.data.JArray? || body.data.JStr?) ==>
              response == ValidateSequenceBody(FeatureSchema(), body.data)
  {
    if body.NoBody? || !Truthy(body.data) {
      return NoPayload("No JSON payload received!");
    }
    var data := body.data;
    var schema := FeatureSchema();
    match data {
      case JObject(fields) =>
        var errors, validatedFeatures := ValidateInput(schema, fields);
        if errors != [] {
          return InvalidFeatures(errors);
        }
        response := Prediction(classify(validatedFeatures));
      case JArray(_) =>
        response := ValidateSequenceBody(schema, data);
      case JStr(_) =>
        response := ValidateSequenceBody(schema, data);
      case _ =>
        response := ServerError;
    }
  }
}
