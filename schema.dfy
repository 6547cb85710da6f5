/** The fixed, ordered feature table the prediction endpoint validates against. */
module Schema {
  import opened Json

  /** The two Python types the table names: `int` and `float`. */
  datatype Kind = Int | Float {
    /** `expected_type.__name__`. */
    function Name(): (name: string)
      ensures name == "int" || name == "float"
      ensures (name == "int") == Int?
    {
      match this
      case Int => "int"
      case Float => "float"
    }
  }

  /** One row of the table. Every row is marked required; the validator never
      reads the flag and treats every feature as required. */
  datatype Feature = Feature(name: string, kind: Kind, required: bool)

  /** `isinstance(value, expected_type)`. In Python `bool` is a subclass of
      `int`, so a boolean is an instance of `int`; an `int` is not an
      instance of `float`. */
  predicate IsInstance(v: JValue, kind: Kind)
    // the value's type is the expected type, or `bool`, the one subclass of `int`
    ensures IsInstance(v, kind) <==>
              TypeName(v) == kind.Name() || (kind == Int && TypeName(v) == "bool")
  {
    match kind
    case Int => v.JInt? || v.JBool?
    case Float => v.JFloat?
  }

  /** The 32 features, in declaration order (the column order of the vector
      handed to the classifier), every one of them required. */
  function FeatureSchema(): (table: seq<Feature>)
    ensures |table| == 32
    ensures forall i :: 0 <= i < |table| ==> table[i].required
  {
    [
      Feature("event_type_x", Int, true),
      Feature("scheduling_class_x", Int, true),
      Feature("priority", Int, true),
      Feature("requested_cpu", Float, true),
      Feature("requested_ram", Float, true),
      Feature("requested_disk_space", Float, true),
      Feature("diff_machine_constraint", Int, true),
      Feature("event_type_y", Int, true),
      Feature("scheduling_class_y", Int, true),
      Feature("mean_cpu_usage", Float, true),
      Feature("canonical_memory_usage", Float, true),
      Feature("assigned_memory_usage", Float, true),
      Feature("unmapped_page_cache", Float, true),
      Feature("total_page_cache", Float, true),
      Feature("max_memory_usage", Float, true),
      Feature("mean_disk_io_time", Float, true),
      Feature("mean_local_disk_space", Float, true),
      Feature("max_cpu_usage", Float, true),
      Feature("max_disk_io_time", Float, true),
      Feature("cpi", Float, true),
      Feature("mai", Float, true),
      Feature("sample_portion", Float, true),
      Feature("aggregation_type", Int, true),
      Feature("sampled_cpu_usage", Float, true),
      Feature("job_duration", Float, true),
      Feature("cpu_utilization_ratio", Float, true),
      Feature("memory_utilization_ratio", Float, true),
      Feature("job_occurrences", Int, true),
      Feature("access_frequency", Float, true),
      Feature("data_size", Float, true),
      Feature("latency_sensitivity", Float, true),
      Feature("read_write_ratio", Float, true)
    ]
  }

  /** The names of a table, in order. */
  function Names(schema: seq<Feature>): (names: seq<string>)
    ensures |names| == |schema|
    ensures forall i :: 0 <= i < |schema| ==> names[i] == schema[i].name
  {
    seq(|schema|, i requires 0 <= i < |schema| => schema[i].name)
  }
}
