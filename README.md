# HybridRecovery ML API — validator and request decision, in Dafny

The HybridRecovery ML API is a small HTTP service in front of a pre-trained
classifier. A `POST /predict` request carries a JSON object of job and
machine-usage features. The service checks that object against a fixed,
ordered feature table (`FEATURE_SCHEMA`). Every feature is required and has
an expected Python type, `int` or `float`. The check (`validate_input`)
visits the table in declaration order. For each feature it records either
one error message or one element of the feature vector. The vector goes to
the classifier only when there are no errors.

This project models that validator and the accept/reject branching of
`predict` around it:

- `json.dfy` (module `Json`): decoded JSON values, tagged with the Python
  type each becomes. It also holds Python's type names, `float.is_integer()`,
  truthiness, and substring containment.
- `schema.dfy` (module `Schema`): the feature table as a sequence of rows,
  and `isinstance` for its two kinds. In Python `bool` is a subclass of
  `int`, so a boolean is an instance of `int`.
- `validator.dfy` (module `Validator`): `Check` is the outcome of one loop
  iteration. `Errors` and `Vector` give the two result lists for any table.
  `ValidateInput` is the loop itself, a method proved equal to those
  functions. It takes the table as a parameter, and the endpoint passes
  `FeatureSchema()`. The lemmas cover the result's shape, order, coercion rules and
  independence from unrelated keys.
- `predict.dfy` (module `Predict`): `HandlePredict` decides the reply from the
  decoded body. The classifier is a function parameter. `RunSequence` is the
  validation loop run on a list or string body.

The table in `api.py` has 32 entries (lines 14-45), so
`|FeatureSchema()| == 32` and every count below is 32.

Python's JSON decoder accepts `NaN`, `Infinity` and `-Infinity`. Floats are
therefore finite reals, the two infinities, or NaN. `is_integer()` is false
for the non-finite ones.

A body that is truthy but not an object still goes through
`validate_input`, and the model follows Python's `in` on it:

- On a number or `true`, `in` raises `TypeError`, which gives a 500 reply.
- On a list or a string, names that `in` does not find are reported missing.
  The first name it does find is then used as an index, which raises
  `TypeError` (500).

## Model

| member | source | states |
|---|---|---|
| Json.TypeName | api.py:69 | the reported type name is `int`, `float` or `bool` exactly for an int, a float or a boolean value |
| Json.IsInteger | api.py:65 | `is_integer()` holds exactly for a finite float whose floor and ceiling coincide; never for NaN or an infinity |
| Json.IsIntegerExamples | api.py:65 | `4.0` is integral; `4.5`, NaN and both infinities are not |
| Json.Truthy | api.py:89 | a body is falsy exactly when it is None, False, 0, 0.0, an empty string, an empty list or an empty dict |
| Json.IsSubstring | api.py:55 | `name in s` on strings: a name found is no longer than the string; the empty name and the whole string are always found |
| Json.SubstringOfConcat | api.py:55 | a name is found in any string built around it |
| Schema.Kind.Name | api.py:69 | the expected type's name is `int` for the `int` kind and `float` for the `float` kind |
| Schema.IsInstance | api.py:63 | `isinstance` holds exactly when the value's type name is the expected one, or is `bool` for an `int` feature |
| Schema.FeatureSchema | api.py:13-46 | the table has 32 rows and every row is required |
| Validator.MissingMessage | api.py:56 | the "missing" message is 28 characters longer than the name and starts with `M` |
| Validator.MissingMessageNamesFeature | api.py:56 | the "missing" message is the fixed prefix, the feature name, and a closing quote, so the name can be read back |
| Validator.MismatchMessage | api.py:68-70 | the type-error message is longer than the name and type name together and starts with `F` |
| Validator.MismatchMessageNamesFeature | api.py:68-70 | the type-error message starts with `Feature '` and the feature name, and ends with the supplied value's type name |
| Validator.MessagesDistinguishable | api.py:56-70 | a "missing" message never equals a type-error message, and two "missing" messages are equal only for the same name |
| Validator.Check | api.py:55-73 | a feature is accepted iff it is present and is an instance of its kind or, for `int`, an integral float; an absent feature gives exactly the "Missing required feature" message; a present one that fails gives exactly the "should be X, but got Y" message; an accepted value has the declared kind and is the supplied value, or the int equal to the supplied float |
| Validator.ValidateInput | api.py:49-75 | the loop returns the error list and vector of the specification functions; errors plus vector elements number the table's rows (32 for the shipped table); no errors iff every feature is accepted; with no errors, element i of the vector is feature i's accepted value |
| Validator.ValidateSplit | api.py:53-73 | validating a table in two parts concatenates the parts' errors and vectors, so both lists follow table order |
| Validator.OneItemPerFeature | api.py:53-73 | every table row contributes exactly one item, an error or a vector element |
| Validator.NoErrorsIffAllAccepted | api.py:53-73 | the error list is empty exactly when every row is accepted |
| Validator.VectorInSchemaOrder | api.py:53-73 | with no errors the vector has one element per row, element i being row i's accepted value |
| Validator.OnlySchemaKeysMatter | api.py:53-59 | two payloads that agree on the presence and values of the table's names give the same errors and vector |
| Validator.ExtraKeyIgnored | api.py:55-59 | adding or replacing a key that is not a feature name changes neither errors nor vector |
| Validator.RestrictionIgnored | api.py:53-59 | the payload restricted to the table's names gives the same errors and vector |
| Validator.OnlyMissingReported | api.py:55-57 | when every present feature passes its type check, the errors are exactly one "missing" message per absent feature, in table order |
| Validator.NothingPresent | api.py:55-57 | a payload with none of the names gets one "missing" message per row in order and an empty vector |
| Validator.MissingPriorityAndStringCpi | api.py:53-71 | with `priority` absent, `cpi` a string and every other feature acceptable, the errors are exactly the two messages for them, `priority` first |
| Validator.InstanceStoredUnchanged | api.py:63-73 | a value already of the declared kind is stored unchanged, so a boolean passes an `int` feature as a boolean |
| Validator.IntegralFloatStoredAsInt | api.py:65-66 | an integral float for an `int` feature is stored as the equal int |
| Validator.NonIntegralFloatRejected | api.py:65-70 | a fractional, infinite or NaN float for an `int` feature gives "should be int, but got float" |
| Validator.NonFloatRejectedForFloat | api.py:63-71 | any non-float for a `float` feature gives "should be float, but got" its type name, `int` for a JSON integer |
| Validator.CoercionExamples | api.py:65-70 | `4.0` for an `int` feature becomes `4`, and `4.5` is refused |
| Predict.StatusCode | api.py:90-114 | 200 only for a prediction, 400 for an empty body or validation errors, 500 for a caught exception |
| Predict.ContainsName | api.py:55 | `name in data` on a list holds exactly when some element is the string `name`; on a string it is substring containment, so the whole string and the empty name are found |
| Predict.RunSequence | api.py:53-59 | the loop on a list or string body, row by row; when it does not raise, it has reported one "missing" message per row, in table order |
| Predict.RaisesIffSomeNameFound | api.py:53-59 | the loop on a list or string body raises exactly when `in` finds some name of the table in it |
| Predict.NotRaisedLikeEmptyObject | api.py:53-57 | a loop that does not raise reports the same errors as an object holding none of the features |
| Predict.ValidateSequenceBody | api.py:53-59 | a list or string body gets 500 iff `in` finds some feature name in it; otherwise the reply carries the errors of an empty object, one per row |
| Predict.HandlePredict | api.py:87-102 | an absent or falsy body is refused with "No JSON payload received!" before validation; a non-empty object gets its validation errors as the reply when there are any, otherwise the classifier's label on the full vector; the classifier is reached only with no errors; a truthy number or boolean body gives 500 |

## Left out

- Flask application setup, the route decorators, the `/` index route and `app.run` (api.py:1-6, 77-80, 116-117): framework start-up and routing.
- `request.get_json()` (api.py:87): the model starts from the decoded body, absent or a JSON value. How Flask treats a malformed body or a wrong content type is not modelled.
- `jsonify` and the JSON encoding of replies: a reply is a datatype value with its HTTP status given by `StatusCode`.
- `joblib.load` of the model file (api.py:8-10): file I/O and foreign deserialisation. The classifier is a function parameter from the validated vector to an int label.
- HandlePredict: does not model `confidence_score` (api.py:105), a floating-point sum over a numpy array that the source calls a placeholder. It also does not model the numpy conversion and reshape (api.py:99).
- HandlePredict: does not model an exception raised inside the classifier (for instance a shape mismatch) and caught as a 500 (api.py:113-114). The classifier is total in the model. The exceptions that the validator itself raises on list, string, number and boolean bodies are modelled.
- ServerError: the text of the 500 reply, `{'error': str(e)}` (api.py:113-114), is not modelled; only that a caught exception gives status 500.
- IEEE float behaviour: finite floats are exact reals. Rounding in the decoder, and a literal too large for a double becoming infinity, are not modelled.
- Each row's `required` flag is carried in the table but, as in the source, never read. Every feature is treated as required.
- The payload is a map value, so validation cannot change it. Key order in the JSON text is not represented, because the validator only looks keys up.
