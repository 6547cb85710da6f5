/** The input validator: every feature of the table, in order, is looked up in
    the decoded JSON object and either yields one error message or one element
    of the feature vector. */
module Validator {
  import opened Json
  import opened Schema

  /** What one table row contributes: an error message, or a vector element. */
  datatype Outcome = Rejected(message: string) | Accepted(value: JValue)

  /** The error for an absent feature. */
  function MissingMessage(name: string): (m: string)
    ensures |m| == |name| + 28 && m[0] == 'M'
  {
    "Missing required feature: '" + name + "'"
  }

  /** The error for a present feature of the wrong type. */
  function MismatchMessage(name: string, kind: Kind, v: JValue): (m: string)
    ensures |m| > |name| + |TypeName(v)| && m[0] == 'F'
  {
    "Feature '" + name + "' should be " + kind.Name() + ", but got " + TypeName(v)
  }

  /** A "missing" error names its feature: the name can be read back. */
  lemma MissingMessageNamesFeature(name: string)
    ensures var m := MissingMessage(name);
            m[..27] == "Missing required feature: '" && m[27..|m| - 1] == name && m[|m| - 1] == '\''
  {
  }

  /** A type error starts by naming its feature and ends with the Python
      type of the value supplied. */
  lemma MismatchMessageNamesFeature(name: string, kind: Kind, v: JValue)
    ensures var m := MismatchMessage(name, kind, v);
            m[..9] == "Feature '" && m[9..9 + |name|] == name &&
            m[|m| - |TypeName(v)|..] == TypeName(v)
  {
  }

  /** The two kinds of error can be told apart, and a "missing" error names
      exactly one feature. */
  lemma MessagesDistinguishable(a: string, b: string, kind: Kind, v: JValue)
    ensures MissingMessage(a) != MismatchMessage(b, kind, v)
    ensures MissingMessage(a) == MissingMessage(b) ==> a == b
  {
    MissingMessageNamesFeature(a);
    MissingMessageNamesFeature(b);
  }

  /** The value passes the type check of a `kind` feature: it is an instance
      of the kind, or it is a float with an integral value and the feature is
      an `int` feature. */
  predicate Conforms(v: JValue, kind: Kind) {
    IsInstance(v, kind) || (kind == Int && v.JFloat? && IsInteger(v.f))
  }

  /** One iteration of the validation loop, for table row `f`. */
  function Check(f: Feature, payload: map<string, JValue>): (o: Outcome)
    ensures o.Accepted? <==> f.name in payload && Conforms(payload[f.name], f.kind)
    ensures f.name !in payload ==> o == Rejected(MissingMessage(f.name))
    ensures f.name in payload && o.Rejected? ==>
              o.message == MismatchMessage(f.name, f.kind, payload[f.name])
    // the stored value has the declared kind and is the supplied number:
    // unchanged, or an integral float turned into the equal int
    ensures o.Accepted? ==>
              IsInstance(o.value, f.kind) &&
              (o.value == payload[f.name] ||
               (o.value.JInt? && payload[f.name] == JFloat(Finite(o.value.i as real))))
  {
    if f.name !in payload then
      Rejected(MissingMessage(f.name))
    else
      var value := payload[f.name];
      if IsInstance(value, f.kind) then
        Accepted(value)
      else if f.kind == Int && value.JFloat? && IsInteger(value.f) then
        Accepted(JInt(value.f.value.Floor))
      else
        Rejected(MismatchMessage(f.name, f.kind, value))
  }

  /** A value that already has the declared kind is stored unchanged; in
      particular a boolean passes an `int` feature as it is. */
  lemma InstanceStoredUnchanged(f: Feature, payload: map<string, JValue>)
    requires f.name in payload && IsInstance(payload[f.name], f.kind)
    ensures Check(f, payload) == Accepted(payload[f.name])
    ensures f.kind == Int && payload[f.name].JBool? ==> Check(f, payload).value.JBool?
  {
  }

  /** An integral float for an `int` feature is stored as the equal int. */
  lemma IntegralFloatStoredAsInt(f: Feature, payload: map<string, JValue>, r: real)
    requires f.kind == Int && f.name in payload && payload[f.name] == JFloat(Finite(r))
    requires r == r.Floor as real
    ensures Check(f, payload) == Accepted(JInt(r.Floor))
  {
  }

  /** Any other float (fractional, infinite or NaN) for an `int` feature is a
      type error naming `float`. */
  lemma NonIntegralFloatRejected(f: Feature, payload: map<string, JValue>)
    requires f.kind == Int && f.name in payload && payload[f.name].JFloat?
    requires !IsInteger(payload[f.name].f)
    ensures Check(f, payload) == Rejected("Feature '" + f.name + "' should be int, but got float")
  {
    assert Int.Name() == "int" && TypeName(payload[f.name]) == "float";
  }

  /** For a `float` feature every non-float value is a type error naming the
      value's Python type: an int gives `int`, a boolean `bool`. */
  lemma NonFloatRejectedForFloat(f: Feature, payload: map<string, JValue>)
    requires f.kind == Float && f.name in payload && !payload[f.name].JFloat?
    ensures Check(f, payload) ==
              Rejected("Feature '" + f.name + "' should be float, but got " + TypeName(payload[f.name]))
  {
    assert Kind.Float.Name() == "float";
  }

  /** `4.0` for an `int` feature becomes `4`; `4.5` is refused. */
  lemma CoercionExamples(name: string)
    ensures Check(Feature(name, Int, true), map[name := JFloat(Finite(4.0))]) == Accepted(JInt(4))
    ensures Check(Feature(name, Int, true), map[name := JFloat(Finite(4.5))]) ==
              Rejected("Feature '" + name + "' should be int, but got float")
  {
    IntegralFloatStoredAsInt(Feature(name, Int, true), map[name := JFloat(Finite(4.0))], 4.0);
    assert !IsInteger(Finite(4.5));
    NonIntegralFloatRejected(Feature(name, Int, true), map[name := JFloat(Finite(4.5))]);
  }

  /** The outcome of every row of `schema`, in table order. */
  function Outcomes(schema: seq<Feature>, payload: map<string, JValue>): seq<Outcome> {
    seq(|schema|, i requires 0 <= i < |schema| => Check(schema[i], payload))
  }

  /** The messages of the rejected outcomes, in order. */
  function Rejections(os: seq<Outcome>): seq<string> {
    if os == [] then []
    else Rejections(os[..|os| - 1]) + (if os[|os| - 1].Rejected? then [os[|os| - 1].message] else [])
  }

  /** The values of the accepted outcomes, in order. */
  function Acceptances(os: seq<Outcome>): seq<JValue> {
    if os == [] then []
    else Acceptances(os[..|os| - 1]) + (if os[|os| - 1].Accepted? then [os[|os| - 1].value] else [])
  }

  /** The error list after validating the rows of `schema` in order. */
  function Errors(schema: seq<Feature>, payload: map<string, JValue>): seq<string> {
    Rejections(Outcomes(schema, payload))
  }

  /** The feature vector after validating the rows of `schema` in order. */
  function Vector(schema: seq<Feature>, payload: map<string, JValue>): seq<JValue> {
    Acceptances(Outcomes(schema, payload))
  }

  /** `validate_input(json_data)` for a JSON object. The table is a
      parameter; the endpoint passes `FeatureSchema()`. */
  method ValidateInput(schema: seq<Feature>, jsonData: map<string, JValue>)
    returns (errors: seq<string>, validatedData: seq<JValue>)
    ensures errors == Errors(schema, jsonData)
    ensures validatedData == Vector(schema, jsonData)
    ensures |errors| + |validatedData| == |schema|
    ensures errors == [] <==>
              forall i :: 0 <= i < |schema| ==> Check(schema[i], jsonData).Accepted?
    ensures errors == [] ==>
              |validatedData| == |schema| &&
              forall i :: 0 <= i < |schema| ==>
                Check(schema[i], jsonData).Accepted? &&
                validatedData[i] == Check(schema[i], jsonData).value
  {
    ghost var outcomes := Outcomes(schema, jsonData);
    errors := [];
    validatedData := [];
    for i := 0 to |schema|
      invariant errors == Rejections(outcomes[..i])
      invariant validatedData == Acceptances(outcomes[..i])
    {
      assert outcomes[..i + 1][..i] == outcomes[..i];
      assert outcomes[i] == Check(schema[i], jsonData);
      var featureName := schema[i].name;
      var expectedType := schema[i].kind;
      if featureName !in jsonData {
        errors := errors + [MissingMessage(featureName)];
        continue;
      }
      var value := jsonData[featureName];
      if !IsInstance(value, expectedType) {
        if expectedType == Int && value.JFloat? && IsInteger(value.f) {
          value := JInt(value.f.value.Floor);
        } else {
          errors := errors + [MismatchMessage(featureName, expectedType, value)];
          continue;
        }
      }
      validatedData := validatedData + [value];
    }
    assert outcomes[..|schema|] == outcomes;
    OneItemPerFeature(schema, jsonData);
    NoErrorsIffAllAccepted(schema, jsonData);
    if errors == [] {
      VectorInSchemaOrder(schema, jsonData);
    }
  }

  lemma {:induction false} SplitOutcomes(o1: seq<Outcome>, o2: seq<Outcome>)
    ensures Rejections(o1 + o2) == Rejections(o1) + Rejections(o2)
    ensures Acceptances(o1 + o2) == Acceptances(o1) + Acceptances(o2)
    decreases |o2|
  {
    if o2 == [] {
      assert o1 + o2 == o1;
    } else {
      var n := |o2| - 1;
      assert (o1 + o2)[..|o1 + o2| - 1] == o1 + o2[..n];
      SplitOutcomes(o1, o2[..n]);
    }
  }

  /** Validating a table in two parts gives the concatenation of the parts'
      errors and of their vectors: both lists follow the table's order. */
  lemma ValidateSplit(s1: seq<Feature>, s2: seq<Feature>, payload: map<string, JValue>)
    ensures Errors(s1 + s2, payload) == Errors(s1, payload) + Errors(s2, payload)
    ensures Vector(s1 + s2, payload) == Vector(s1, payload) + Vector(s2, payload)
  {
    assert Outcomes(s1 + s2, payload) == Outcomes(s1, payload) + Outcomes(s2, payload);
    SplitOutcomes(Outcomes(s1, payload), Outcomes(s2, payload));
  }

  lemma {:induction false} CountOutcomes(os: seq<Outcome>)
    ensures |Rejections(os)| + |Acceptances(os)| == |os|
    decreases |os|
  {
    if os != [] {
      CountOutcomes(os[..|os| - 1]);
    }
  }

  /** Every row contributes exactly one item: an error or a vector element. */
  lemma OneItemPerFeature(schema: seq<Feature>, payload: map<string, JValue>)
    ensures |Errors(schema, payload)| + |Vector(schema, payload)| == |schema|
  {
    CountOutcomes(Outcomes(schema, payload));
  }

  lemma {:induction false} NoRejectionsIffAllAccepted(os: seq<Outcome>)
    ensures Rejections(os) == [] <==> forall i :: 0 <= i < |os| ==> os[i].Accepted?
    decreases |os|
  {
    if os != [] {
      var n := |os| - 1;
      NoRejectionsIffAllAccepted(os[..n]);
      assert forall i :: 0 <= i < n ==> os[..n][i] == os[i];
    }
  }

  /** The error list is empty exactly when every row is accepted. */
  lemma NoErrorsIffAllAccepted(schema: seq<Feature>, payload: map<string, JValue>)
    ensures Errors(schema, payload) == [] <==>
              forall i :: 0 <= i < |schema| ==> Check(schema[i], payload).Accepted?
  {
    var os := Outcomes(schema, payload);
    assert forall i :: 0 <= i < |schema| ==> os[i] == Check(schema[i], payload);
    NoRejectionsIffAllAccepted(os);
  }

  lemma {:induction false} AcceptancesInOrder(os: seq<Outcome>)
    requires forall i :: 0 <= i < |os| ==> os[i].Accepted?
    ensures |Acceptances(os)| == |os|
    ensures forall i :: 0 <= i < |os| ==> Acceptances(os)[i] == os[i].value
    decreases |os|
  {
    if os != [] {
      var n := |os| - 1;
      assert forall i :: 0 <= i < n ==> os[..n][i] == os[i];
      AcceptancesInOrder(os[..n]);
    }
  }

  /** With no errors the vector has one element per row, in table order,
      element `i` being the (possibly converted) value of feature `i`. */
  lemma VectorInSchemaOrder(schema: seq<Feature>, payload: map<string, JValue>)
    requires Errors(schema, payload) == []
    ensures |Vector(schema, payload)| == |schema|
    ensures forall i :: 0 <= i < |schema| ==>
              Check(schema[i], payload).Accepted? &&
              Vector(schema, payload)[i] == Check(schema[i], payload).value
  {
    NoErrorsIffAllAccepted(schema, payload);
    AcceptancesInOrder(Outcomes(schema, payload));
  }

  /** Two payloads that agree on the table's names (same presence, same value). */
  predicate AgreeOn(schema: seq<Feature>, p: map<string, JValue>, q: map<string, JValue>) {
    forall i :: 0 <= i < |schema| ==>
      (schema[i].name in p <==> schema[i].name in q) &&
      (schema[i].name in p ==> p[schema[i].name] == q[schema[i].name])
  }

  /** The result depends only on the payload's entries for the table's names. */
  lemma OnlySchemaKeysMatter(schema: seq<Feature>, p: map<string, JValue>, q: map<string, JValue>)
    requires AgreeOn(schema, p, q)
    ensures Errors(schema, p) == Errors(schema, q)
    ensures Vector(schema, p) == Vector(schema, q)
  {
    forall i | 0 <= i < |schema| ensures Check(schema[i], p) == Check(schema[i], q) {
      var name := schema[i].name;
      if name in p {
        assert p[name] == q[name];
      }
    }
    assert Outcomes(schema, p) == Outcomes(schema, q);
  }

  /** A key that is not a feature name changes nothing. */
  lemma ExtraKeyIgnored(schema: seq<Feature>, payload: map<string, JValue>, key: string, v: JValue)
    requires key !in Names(schema)
    ensures Errors(schema, payload[key := v]) == Errors(schema, payload)
    ensures Vector(schema, payload[key := v]) == Vector(schema, payload)
  {
    assert forall i :: 0 <= i < |schema| ==> schema[i].name != key by {
      forall i | 0 <= i < |schema| ensures schema[i].name != key {
        assert Names(schema)[i] == schema[i].name;
      }
    }
    OnlySchemaKeysMatter(schema, payload[key := v], payload);
  }

  /** Restricting the payload to the table's names changes nothing. */
  lemma RestrictionIgnored(schema: seq<Feature>, payload: map<string, JValue>)
    ensures var names := Names(schema);
            var restricted := map k | k in payload && k in names :: payload[k];
            Errors(schema, restricted) == Errors(schema, payload) &&
            Vector(schema, restricted) == Vector(schema, payload)
  {
    var names := Names(schema);
    var restricted := map k | k in payload && k in names :: payload[k];
    assert forall i :: 0 <= i < |schema| ==> schema[i].name in names by {
      forall i | 0 <= i < |schema| ensures schema[i].name in names {
        assert names[i] == schema[i].name;
      }
    }
    OnlySchemaKeysMatter(schema, restricted, payload);
  }

  /** The names of the rows that are absent from the payload, in table order. */
  function MissingFeatures(schema: seq<Feature>, payload: map<string, JValue>): seq<string>
  {
    if schema == [] then []
    else
      var last := schema[|schema| - 1];
      MissingFeatures(schema[..|schema| - 1], payload) + (if last.name in payload then [] else [last.name])
  }

  /** When every present feature has an acceptable value, the errors are
      exactly one "missing" message per absent feature, in table order. */
  lemma {:induction false} OnlyMissingReported(schema: seq<Feature>, payload: map<string, JValue>)
    requires forall i :: 0 <= i < |schema| && schema[i].name in payload ==>
               Conforms(payload[schema[i].name], schema[i].kind)
    ensures var missing := MissingFeatures(schema, payload);
            |Errors(schema, payload)| == |missing| &&
            forall i :: 0 <= i < |missing| ==> Errors(schema, payload)[i] == MissingMessage(missing[i])
    decreases |schema|
  {
    if schema != [] {
      var n := |schema| - 1;
      assert forall i :: 0 <= i < n ==> schema[..n][i] == schema[i];
      assert Outcomes(schema, payload)[..n] == Outcomes(schema[..n], payload);
      OnlyMissingReported(schema[..n], payload);
    }
  }

  /** Extending a prefix of the outcomes by one outcome. */
  lemma RejectionsSnoc(os: seq<Outcome>, m: nat)
    requires m < |os|
    ensures Rejections(os[..m + 1]) ==
              Rejections(os[..m]) + (if os[m].Rejected? then [os[m].message] else [])
  {
    assert os[..m + 1][..m] == os[..m];
  }

  /** A run of accepted outcomes between `lo` and `hi` contributes no message. */
  lemma {:induction false} AcceptedRun(os: seq<Outcome>, lo: nat, hi: nat)
    requires lo <= hi <= |os|
    requires forall i :: lo <= i < hi ==> os[i].Accepted?
    ensures Rejections(os[..hi]) == Rejections(os[..lo])
    decreases hi - lo
  {
    if lo < hi {
      AcceptedRun(os, lo, hi - 1);
      RejectionsSnoc(os, hi - 1);
    }
  }

  lemma {:induction false} AllRejected(os: seq<Outcome>)
    requires forall i :: 0 <= i < |os| ==> os[i].Rejected?
    ensures |Rejections(os)| == |os|
    ensures forall i :: 0 <= i < |os| ==> Rejections(os)[i] == os[i].message
    decreases |os|
  {
    if os != [] {
      var n := |os| - 1;
      assert forall i :: 0 <= i < n ==> os[..n][i] == os[i];
      AllRejected(os[..n]);
    }
  }

  /** A payload holding none of the table's names gets one "missing" message
      per row, in table order, and an empty vector. */
  lemma NothingPresent(schema: seq<Feature>, payload: map<string, JValue>)
    requires forall i :: 0 <= i < |schema| ==> schema[i].name !in payload
    ensures |Errors(schema, payload)| == |schema|
    ensures forall i :: 0 <= i < |schema| ==> Errors(schema, payload)[i] == MissingMessage(schema[i].name)
    ensures Vector(schema, payload) == []
  {
    var os := Outcomes(schema, payload);
    assert forall i :: 0 <= i < |schema| ==> os[i] == Check(schema[i], payload);
    AllRejected(os);
    CountOutcomes(os);
  }

  /** Up to `hi` the outcomes reject only at `j`: that one message. */
  lemma RejectedOnceBefore(os: seq<Outcome>, j: nat, hi: nat)
    requires j < hi <= |os| && os[j].Rejected?
    requires forall i :: 0 <= i < hi && i != j ==> os[i].Accepted?
    ensures Rejections(os[..hi]) == [os[j].message]
  {
    AcceptedRun(os, j + 1, hi);
    RejectionsSnoc(os, j);
    AcceptedRun(os, 0, j);
    assert os[..0] == [];
  }

  /** The outcomes reject exactly at `j` and `k`: the messages are those two,
      in that order. */
  lemma RejectedExactlyAt(os: seq<Outcome>, j: nat, k: nat)
    requires j < k < |os| && os[j].Rejected? && os[k].Rejected?
    requires forall i :: 0 <= i < |os| && i != j && i != k ==> os[i].Accepted?
    ensures Rejections(os) == [os[j].message, os[k].message]
  {
    AcceptedRun(os, k + 1, |os|);
    RejectionsSnoc(os, k);
    RejectedOnceBefore(os, j, k);
    assert os[..|os|] == os;
  }

  /** The literal text of the "missing" message for `priority`. */
  lemma PriorityMissingText()
    ensures MissingMessage("priority") == "Missing required feature: 'priority'"
  {
  }

  /** The literal text of the type error for a string `cpi`. */
  lemma CpiStringText(text: string)
    ensures MismatchMessage("cpi", Float, JStr(text)) == "Feature 'cpi' should be float, but got str"
  {
    calc {
      MismatchMessage("cpi", Float, JStr(text));
      "Feature '" + "cpi" + "' should be " + "float" + ", but got " + "str";
      "Feature 'cpi' should be float, but got str";
    }
  }

  /** A payload missing `priority` and carrying a string for `cpi`, every
      other feature being acceptable, gets exactly two errors, in table
      order. */
  lemma MissingPriorityAndStringCpi(payload: map<string, JValue>, text: string)
    requires "priority" !in payload
    requires "cpi" in payload && payload["cpi"] == JStr(text)
    requires forall i :: 0 <= i < |FeatureSchema()| && i != 2 && i != 19 ==>
               Check(FeatureSchema()[i], payload).Accepted?
    ensures Errors(FeatureSchema(), payload) ==
              ["Missing required feature: 'priority'", "Feature 'cpi' should be float, but got str"]
  {
    var os := Outcomes(FeatureSchema(), payload);
    assert FeatureSchema()[2] == Feature("priority", Int, true);
    assert FeatureSchema()[19] == Feature("cpi", Float, true);
    assert os[2] == Rejected(MissingMessage("priority"));
    assert os[19] == Rejected(MismatchMessage("cpi", Float, JStr(text)));
    assert forall i :: 0 <= i < |os| ==> os[i] == Check(FeatureSchema()[i], payload);
    RejectedExactlyAt(os, 2, 19);
    PriorityMissingText();
    CpiStringText(text);
  }
}
