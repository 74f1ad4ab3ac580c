/** The guards of the dynamic accessors and of `emit` in gi/object.cpp:
    what each does before (or instead of) handing a value to the
    marshalling layer. The marshalling calls themselves are foreign; their
    success is a parameter. */
module Accessors {
  import opened Wrappers
  import opened Introspection
  import opened Resolver

  /** What one accessor call does. */
  datatype Access =
    | Skipped                    // returns true without touching the GObject
    | Undefined                  // returns true with the JS value `undefined`
    | Done                       // the GObject is read or written
    | Logged(message: string)    // `g_message`, then returns true
    | ReadOnly(field: string)    // `gjs_wrapper_throw_readonly_field`
    | Thrown(message: string)    // `gjs_throw`
    | Failed                     // a callee failed with an exception pending

  /** The accessor returns true to the JS engine. */
  predicate Succeeds(a: Access) {
    a.Skipped? || a.Undefined? || a.Done? || a.Logged?
  }

  /** The parts of a `GParamSpec` the accessors consult: its name, the
      `G_PARAM_READABLE` and `G_PARAM_WRITABLE` flags, and whether it
      carries the quark of a property overridden in JS. */
  datatype ParamSpec = ParamSpec(name: string, readable: bool, writable: bool, custom: bool)

  /** The type tags `field_getter_impl` refuses. */
  predicate ComplexTag(tag: TypeTag) {
    tag == Array || tag == Interface || tag == GList || tag == GSList || tag == GHash || tag == Error
  }

  /** The types of fields GObject introspection can read: scalars, strings
      and `GType`. */
  predicate ScalarTag(tag: TypeTag) {
    || tag == Void || tag == Boolean || tag == Int8 || tag == UInt8 || tag == Int16 || tag == UInt16
    || tag == Int32 || tag == UInt32 || tag == Int64 || tag == UInt64 || tag == Float || tag == Double
    || tag == GType || tag == Utf8 || tag == Filename || tag == Unichar
  }

  /** `g_type_tag_to_string` for the tags that appear in the message. */
  function ComplexTagName(tag: TypeTag): string
    requires ComplexTag(tag)
  {
    match tag
    case Array => "array"
    case Interface => "interface"
    case GList => "glist"
    case GSList => "gslist"
    case GHash => "ghash"
    case Error => "GError"
  }

  /** `field_getter` and `field_getter_impl`: `readOk` is the verdict of
      `g_field_info_get_field`, `convertOk` that of `gjs_value_from_g_argument`. */
  function FieldGetter(isPrototype: bool, disposed: bool, field: FieldInfo, name: string,
                       readOk: bool, convertOk: bool): (r: Access)
    ensures r == Skipped <==> isPrototype || disposed
    // only fields of a scalar type are ever read
    ensures r == Done ==> ScalarTag(field.tag) && readOk && convertOk
    ensures !isPrototype && !disposed && ScalarTag(field.tag) && readOk ==> r == if convertOk then Done else Failed
    ensures r.Thrown? <==> !isPrototype && !disposed && (!ScalarTag(field.tag) || !readOk)
  {
    if isPrototype || disposed then Skipped
    else if ComplexTag(field.tag) then
      Thrown("Can't get field " + name + "; GObject introspection supports only fields with simple types, not "
             + ComplexTagName(field.tag))
    else if !readOk then Thrown("Error getting field " + name + " from object")
    else if !convertOk then Failed
    else Done
  }

  /** `field_setter` and `field_setter_not_impl`: no field is ever written. */
  function FieldSetter(isPrototype: bool, disposed: bool, field: FieldInfo, name: string): (r: Access)
    ensures r != Done && Succeeds(r) != r.ReadOnly?
    ensures r.ReadOnly? <==> !isPrototype && !disposed && !field.writable
    ensures r.ReadOnly? ==> r.field == field.name
    ensures r.Logged? <==> !isPrototype && !disposed && field.writable
  {
    if isPrototype || disposed then Skipped
    else if field.writable then
      Logged("Field " + name + " of a GObject is writable, but setting it is not implemented")
    else ReadOnly(field.name)
  }

  /** `prop_getter` and `prop_getter_impl`: `convertOk` is the verdict of
      `gjs_value_from_g_value`. */
  function PropGetter(isPrototype: bool, disposed: bool, param: ParamSpec, convertOk: bool): (r: Access)
    // a property overridden in JS is never fetched from GObject
    ensures r == Skipped <==> isPrototype || disposed || param.custom
    ensures r == Undefined <==> !isPrototype && !disposed && !param.custom && !param.readable
    ensures r == Done ==> param.readable && convertOk
    ensures r == Done || r == Failed ==> !isPrototype && !disposed && !param.custom && param.readable
    ensures Succeeds(r) <==> r != Failed
  {
    if isPrototype || disposed || param.custom then Skipped
    else if !param.readable then Undefined
    else if !convertOk then Failed
    else Done
  }

  /** `prop_setter` and `prop_setter_impl`: `param` is what
      `find_param_spec_from_id` finds and `convertOk` the verdict of
      `gjs_value_to_g_value`. */
  function PropSetter(isPrototype: bool, disposed: bool, param: Option<ParamSpec>, convertOk: bool): (r: Access)
    // only a writable property not overridden in JS is ever written
    ensures r == Done ==> param.Some? && param.value.writable && !param.value.custom && convertOk
    ensures r.ReadOnly? <==> !isPrototype && !disposed && param.Some? && !param.value.custom && !param.value.writable
    ensures r.ReadOnly? ==> r.field == param.value.name
    ensures r == Skipped <==> isPrototype || disposed || (param.Some? && param.value.custom)
    ensures !isPrototype && !disposed && param.None? ==> r == Failed
  {
    if isPrototype || disposed then Skipped
    else match param
      case None => Failed
      case Some(p) =>
        if p.custom then Skipped
        else if !p.writable then ReadOnly(p.name)
        else if !convertOk then Failed
        else Done
  }

  /** The decimal digits of `n`, as `%d` prints it. */
  function Decimal(n: nat): (s: string)
    ensures |s| >= 1
    decreases n
  {
    var digit := ['0' + (n % 10) as char];
    if n < 10 then digit else Decimal(n / 10) + digit
  }

  const Uint32Modulus := 0x1_0000_0000

  /** `argv.length() - 1` on an `unsigned`. */
  function CountArgs(argc: nat): nat {
    (argc - 1) % Uint32Modulus
  }

  /** `g_signal_query`: the number of parameters of the signal. */
  datatype SignalQuery = SignalQuery(nParams: nat)

  /** The guards of `emit_impl`, up to the emission: `nameParsed` is the
      verdict of `gjs_parse_call_args` on the first argument, `signal` what
      `g_signal_parse_name` finds, `typeName` the name of the object's type. */
  function EmitCheck(disposed: bool, argc: nat, nameParsed: bool, signalName: string,
                     signal: Option<SignalQuery>, typeName: string): (r: Access)
    requires argc < Uint32Modulus
    ensures r == Skipped <==> disposed
    ensures !disposed && argc == 0 ==> r == Failed
    // a signal is only emitted with exactly one argument per parameter
    // after the signal name
    ensures r == Done <==> !disposed && nameParsed && signal.Some? && argc == signal.value.nParams + 1
    ensures r.Thrown? ==> !disposed && argc >= 1 && nameParsed
  {
    if disposed then Skipped
    else if argc < 1 || !nameParsed then Failed
    else match signal
      case None => Thrown("No signal '" + signalName + "' on object '" + typeName + "'")
      case Some(query) =>
        if CountArgs(argc) != query.nParams then
          Thrown("Signal '" + signalName + "' on " + typeName + " requires " + Decimal(query.nParams)
                 + " args got " + Decimal(CountArgs(argc)))
        else Done
  }

  /** A field the resolve hook defined is read when its type is scalar, and
      written never: the setter throws exactly when the hook marked the
      field read-only. */
  lemma ResolvedFieldAccess(info: ObjectInfo, ifaces: seq<Option<InterfaceInfo>>, name: string,
                            hyphenated: string, vfuncUnchanged: bool, alreadyDefined: bool)
    requires Resolve(false, info, ifaces, name, hyphenated, vfuncUnchanged, alreadyDefined).DefinedField?
    ensures var r := Resolve(false, info, ifaces, name, hyphenated, vfuncUnchanged, alreadyDefined);
            && (ScalarTag(r.field.tag) ==> FieldGetter(false, false, r.field, name, true, true) == Done)
            && (FieldSetter(false, false, r.field, name).ReadOnly? <==> r.readOnly)
  {
  }
}
