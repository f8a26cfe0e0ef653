/** `option(key)` of dist/osc.js (lines 880-893): reads a setting from the
    options of the running `OSC` instance, or from the defaults when there is
    none. The module-level `instance` becomes a parameter. */
module DistOption {
  import opened Wrappers
  import opened Utils

  const KeyError: string := "OSC option key does not exist or is not valid."

  /** `defaultOptions`. */
  const Defaults: map<string, Value> :=
    map["connectionPlugin" := Null, "doublePrecisionFloats" := Boolean(false), "discardLateMessages" := Boolean(false)]

  /** `option(key)` with `instance` holding the options of the running
      instance, if any: a key that is not a string, or that the options lack,
      throws. */
  function OptionOf(key: Value, instance: Option<map<string, Value>>): (r: Result<Value>)
    ensures var options := if instance.Some? then instance.value else Defaults;
      && (r.Ok? <==> key.Str? && key.s in options)
      && (r.Ok? ==> r.value == options[key.s])
      && (r.Err? ==> r.error == KeyError)
  {
    var options := if instance.Some? then instance.value else Defaults;
    if key.Str? && key.s in options then Ok(options[key.s]) else Err(KeyError)
  }

  /** Without an instance the three defaults are read: no plugin, single
      precision floats, and late messages kept. */
  lemma DefaultsRead()
    ensures OptionOf(Str("connectionPlugin"), None) == Ok(Null)
    ensures OptionOf(Str("doublePrecisionFloats"), None) == Ok(Boolean(false))
    ensures OptionOf(Str("discardLateMessages"), None) == Ok(Boolean(false))
  {
    assert "connectionPlugin" in Defaults;
    assert "doublePrecisionFloats" in Defaults;
    assert "discardLateMessages" in Defaults;
  }
}
