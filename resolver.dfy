/** The resolve hook of object prototypes in gi/object.cpp
    (`ObjectPrototype::resolve_impl` and `resolve_no_info`): which kind of
    member a name becomes, in which order the candidates are tried. Defining
    the member on the JS prototype is reduced to the `Resolution` saying
    what would be defined. */
module Resolver {
  import opened Wrappers
  import opened Names
  import opened Introspection

  /** What the hook did with a name. */
  datatype Resolution =
    | Unresolved                                   // `*resolved = false`
    | DefinedMethod(fn: FunctionInfo)              // `gjs_define_function` with a method
    | DefinedVFunc(vfunc: VFuncInfo)               // `gjs_define_function` with a vfunc
    | DefinedProperty                              // a lazy GObject property
    | DefinedField(field: FieldInfo, readOnly: bool) // a lazy GObject field

  /** `ResolveWhat` */
  datatype ResolveWhat = ConsiderOnlyMethods | ConsiderMethodsAndProperties

  /** `lazy_define_gobject_property`: a name the object already has is left
      alone. */
  function LazyProperty(alreadyDefined: bool): (r: Resolution)
    ensures r == DefinedProperty <==> !alreadyDefined
    ensures r == Unresolved <==> alreadyDefined
  {
    if alreadyDefined then Unresolved else DefinedProperty
  }

  /** The interface `iface` has a real method called `name`. */
  predicate MethodHit(iface: InterfaceInfo, name: string) {
    NamedFunction(iface.methods, name).Some? && NamedFunction(iface.methods, name).value.isMethod
  }

  /** `resolve_no_info` stops at the interface `o`: it has introspection
      data and either a real method called `name` or, when properties are
      considered, a property whose canonical name is `key`. */
  predicate IfaceHit(o: Option<InterfaceInfo>, name: string, key: string, what: ResolveWhat) {
    o.Some? && (MethodHit(o.value, name) || (what == ConsiderMethodsAndProperties && key in o.value.properties))
  }

  /** What stopping at the interface `iface` defines: its method when it has
      a real one, the lazy property otherwise. */
  function HitResult(iface: InterfaceInfo, name: string, alreadyDefined: bool): (r: Resolution)
    ensures r.DefinedMethod? <==> MethodHit(iface, name)
    ensures r.DefinedMethod? ==> r.fn in iface.methods && r.fn.name == name && r.fn.isMethod
    ensures !r.DefinedMethod? ==> r == LazyProperty(alreadyDefined)
  {
    if MethodHit(iface, name) then DefinedMethod(NamedFunction(iface.methods, name).value)
    else LazyProperty(alreadyDefined)
  }

  /** What `resolve_no_info` makes of `name` over the interfaces `ifaces` of
      the type (`None` for one with no introspection data), `key` being the
      canonical spelling of the name. */
  function NoInfo(ifaces: seq<Option<InterfaceInfo>>, name: string, key: string, what: ResolveWhat,
                  alreadyDefined: bool): (r: Resolution)
    // only methods of the interfaces are defined, and only real methods
    ensures r.DefinedMethod? ==> r.fn.name == name && r.fn.isMethod
    ensures r.DefinedMethod? ==> exists k :: 0 <= k < |ifaces| && ifaces[k].Some? && r.fn in ifaces[k].value.methods
    ensures r.Unresolved? || r.DefinedMethod? || r.DefinedProperty?
    // properties are only considered when asked for, and only those of the interfaces
    ensures r.DefinedProperty? ==> what == ConsiderMethodsAndProperties && !alreadyDefined
    ensures r.DefinedProperty? ==> exists k :: 0 <= k < |ifaces| && ifaces[k].Some? && key in ifaces[k].value.properties
    decreases |ifaces|
  {
    if ifaces == [] then Unresolved
    else
      assert forall k :: 0 <= k < |ifaces| - 1 ==> ifaces[1..][k] == ifaces[k + 1];
      match ifaces[0]
      case None => NoInfo(ifaces[1..], name, key, what, alreadyDefined)
      case Some(iface) =>
        var m := NamedFunction(iface.methods, name);
        if m.Some? && m.value.isMethod then DefinedMethod(m.value)
        else if what == ConsiderMethodsAndProperties && key in iface.properties then LazyProperty(alreadyDefined)
        else NoInfo(ifaces[1..], name, key, what, alreadyDefined)
  }

  /** The first interface where the search stops decides: its real method
      is defined, or else its property unless the name is already taken. */
  lemma {:induction false} NoInfoFirstHit(ifaces: seq<Option<InterfaceInfo>>, name: string, key: string,
                                          what: ResolveWhat, alreadyDefined: bool, k: nat)
    requires k < |ifaces| && IfaceHit(ifaces[k], name, key, what)
    requires forall j :: 0 <= j < k ==> !IfaceHit(ifaces[j], name, key, what)
    ensures NoInfo(ifaces, name, key, what, alreadyDefined) == HitResult(ifaces[k].value, name, alreadyDefined)
  {
    if k > 0 {
      assert !IfaceHit(ifaces[0], name, key, what);
      assert forall j :: 0 <= j < k - 1 ==> ifaces[1..][j] == ifaces[j + 1];
      NoInfoFirstHit(ifaces[1..], name, key, what, alreadyDefined, k - 1);
    }
  }

  /** Where no interface has a real method of that name, nor a property of
      that key when properties are considered, nothing is defined. */
  lemma {:induction false} NoInfoNoHit(ifaces: seq<Option<InterfaceInfo>>, name: string, key: string,
                                       what: ResolveWhat, alreadyDefined: bool)
    requires forall k :: 0 <= k < |ifaces| ==> !IfaceHit(ifaces[k], name, key, what)
    ensures NoInfo(ifaces, name, key, what, alreadyDefined) == Unresolved
    decreases |ifaces|
  {
    if ifaces != [] {
      assert !IfaceHit(ifaces[0], name, key, what);
      assert forall k :: 0 <= k < |ifaces| - 1 ==> ifaces[1..][k] == ifaces[k + 1];
      NoInfoNoHit(ifaces[1..], name, key, what, alreadyDefined);
    }
  }

  /** Where some interface has a real method of that name, or a property of
      that key when properties are considered, something is defined, unless
      it is a property and the name is already taken. */
  lemma {:induction false} NoInfoHit(ifaces: seq<Option<InterfaceInfo>>, name: string, key: string,
                                     what: ResolveWhat, alreadyDefined: bool, k: nat)
    requires k < |ifaces| && IfaceHit(ifaces[k], name, key, what)
    ensures NoInfo(ifaces, name, key, what, alreadyDefined) != Unresolved || alreadyDefined
  {
    if !IfaceHit(ifaces[0], name, key, what) {
      assert ifaces[1..][k - 1] == ifaces[k];
      NoInfoHit(ifaces[1..], name, key, what, alreadyDefined, k - 1);
    }
  }

  /** `resolve_no_info`: the interfaces of the type are tried in order; the
      first one with a real method of that name defines it, and, when
      properties are considered, the first one with a property of that
      name defines the property instead. */
  method ResolveNoInfo(ifaces: seq<Option<InterfaceInfo>>, name: string, hyphenated: string, what: ResolveWhat,
                       alreadyDefined: bool) returns (r: Resolution)
    requires what == ConsiderMethodsAndProperties ==> '\0' !in hyphenated
    ensures r == NoInfo(ifaces, name, Canonical(hyphenated), what, alreadyDefined)
  {
    var canonicalName := "";
    if what == ConsiderMethodsAndProperties {
      canonicalName := CanonicalCopy(hyphenated);
    }
    ghost var key := Canonical(hyphenated);
    for i := 0 to |ifaces|
      invariant what == ConsiderMethodsAndProperties ==> canonicalName == key
      invariant NoInfo(ifaces[i..], name, key, what, alreadyDefined) == NoInfo(ifaces, name, key, what, alreadyDefined)
    {
      assert ifaces[i..][1..] == ifaces[i + 1..];
      if ifaces[i].None? {
        continue;
      }
      var ifaceInfo := ifaces[i].value;
      var methodInfo := NamedFunction(ifaceInfo.methods, name);
      if methodInfo.Some? && methodInfo.value.isMethod {
        return DefinedMethod(methodInfo.value);
      }
      if what == ConsiderOnlyMethods {
        continue;
      }
      var isProp := IsGInterfacePropertyName(ifaceInfo, canonicalName);
      if isProp {
        return LazyProperty(alreadyDefined);
      }
    }
    r := Unresolved;
  }

  /** Whether `name` starts with `vfunc_`. */
  predicate HasVFuncPrefix(name: string) {
    |name| >= 6 && name[..6] == "vfunc_"
  }

  /** `resolve_impl` takes the `vfunc_` branch: the class is introspected,
      the name starts with `vfunc_`, and `find_vfunc_on_parents` finds the
      rest of it. */
  predicate VFuncCase(custom: bool, info: ObjectInfo, name: string) {
    !custom && HasVFuncPrefix(name) && VFuncOnParents(info, name[6..]).0.Some?
  }

  /** What `resolve_impl` makes of `name` on the prototype of a class with
      the introspection data `info` (ignored for a class defined in JS,
      `custom`), the type interfaces `ifaces`, `hyphenated` being the
      `gjs_hyphen_from_camel` spelling of the name; `vfuncUnchanged` is
      the verdict of `is_vfunc_unchanged` and `alreadyDefined` whether the
      prototype already has the name. */
  function Resolve(custom: bool, info: ObjectInfo, ifaces: seq<Option<InterfaceInfo>>, name: string,
                   hyphenated: string, vfuncUnchanged: bool, alreadyDefined: bool): (r: Resolution)
    // a class defined in JS only looks at its interfaces, properties included
    ensures custom ==> r == NoInfo(ifaces, name, Canonical(hyphenated), ConsiderMethodsAndProperties, alreadyDefined)
    // the virtual function goes first, and a changed one is always defined
    ensures VFuncCase(custom, info, name) ==>
      r == if VFuncOnParents(info, name[6..]).1 && vfuncUnchanged then Unresolved
           else DefinedVFunc(VFuncOnParents(info, name[6..]).0.value)
    // then a property of the class or of its interfaces
    ensures !custom && !VFuncCase(custom, info, name) && PropertyNamed(info, Canonical(hyphenated)) ==>
      r == LazyProperty(alreadyDefined)
    // then a readable field, defined unless the name is taken
    ensures !custom && !VFuncCase(custom, info, name) && !PropertyNamed(info, Canonical(hyphenated))
            && LookupField(info.fields, name).Some? ==>
      r == if alreadyDefined then Unresolved
           else DefinedField(LookupField(info.fields, name).value, !LookupField(info.fields, name).value.writable)
    // then a method of the class or its interfaces, defined when it is a real method
    ensures !custom && !VFuncCase(custom, info, name) && !PropertyNamed(info, Canonical(hyphenated))
            && LookupField(info.fields, name).None? && FindMethodUsingInterfaces(info, name).Some? ==>
      r == if FindMethodUsingInterfaces(info, name).value.isMethod
           then DefinedMethod(FindMethodUsingInterfaces(info, name).value) else Unresolved
    // and only when the introspection data has none of these, the methods of the type interfaces
    ensures !custom && !VFuncCase(custom, info, name) && !PropertyNamed(info, Canonical(hyphenated))
            && LookupField(info.fields, name).None? && FindMethodUsingInterfaces(info, name).None? ==>
      r == NoInfo(ifaces, name, Canonical(hyphenated), ConsiderOnlyMethods, alreadyDefined)
    // a property is only defined for a new name that is one
    ensures r.DefinedProperty? ==> !alreadyDefined
                                   && (custom || PropertyNamed(info, Canonical(hyphenated)))
    // a field only for a name that is not a property, and only a readable one
    ensures r.DefinedField? ==> && !custom && !PropertyNamed(info, Canonical(hyphenated))
                                && LookupField(info.fields, name) == Some(r.field)
                                && r.field.readable && r.readOnly == !r.field.writable && !alreadyDefined
    // a method only for a name that is neither a property nor a field
    ensures r.DefinedMethod? ==> && r.fn.name == name && r.fn.isMethod
                                 && (!custom ==> !PropertyNamed(info, Canonical(hyphenated))
                                                 && LookupField(info.fields, name).None?)
    ensures r.DefinedVFunc? ==> !custom && HasVFuncPrefix(name) && r.vfunc.name == name[6..]
  {
    if custom then NoInfo(ifaces, name, Canonical(hyphenated), ConsiderMethodsAndProperties, alreadyDefined)
    else if HasVFuncPrefix(name) && VFuncOnParents(info, name[6..]).0.Some? then
      if VFuncOnParents(info, name[6..]).1 && vfuncUnchanged then Unresolved
      else DefinedVFunc(VFuncOnParents(info, name[6..]).0.value)
    else if PropertyNamed(info, Canonical(hyphenated)) then LazyProperty(alreadyDefined)
    else if LookupField(info.fields, name).Some? then
      if alreadyDefined then Unresolved
      else DefinedField(LookupField(info.fields, name).value, !LookupField(info.fields, name).value.writable)
    else match FindMethodUsingInterfaces(info, name)
      case None => NoInfo(ifaces, name, Canonical(hyphenated), ConsiderOnlyMethods, alreadyDefined)
      case Some(m) => if m.isMethod then DefinedMethod(m) else Unresolved
  }

  /** `ObjectPrototype::resolve_impl` */
  method ResolveImpl(custom: bool, info: ObjectInfo, ifaces: seq<Option<InterfaceInfo>>, name: string,
                     hyphenated: string, vfuncUnchanged: bool, alreadyDefined: bool) returns (r: Resolution)
    requires '\0' !in hyphenated
    ensures r == Resolve(custom, info, ifaces, name, hyphenated, vfuncUnchanged, alreadyDefined)
  {
    if custom {
      r := ResolveNoInfo(ifaces, name, hyphenated, ConsiderMethodsAndProperties, alreadyDefined);
      return;
    }
    if |name| >= 6 && name[..6] == "vfunc_" {
      var vfunc, definedByParent := FindVFuncOnParents(info, name[6..]);
      if vfunc.Some? {
        if definedByParent && vfuncUnchanged {
          return Unresolved;
        }
        return DefinedVFunc(vfunc.value);
      }
    }
    var isProp := IsGObjectPropertyName(info, hyphenated);
    if isProp {
      return LazyProperty(alreadyDefined);
    }
    var fieldInfo := LookupFieldInfo(info, name);
    if fieldInfo.Some? {
      if alreadyDefined {
        return Unresolved;
      }
      return DefinedField(fieldInfo.value, !fieldInfo.value.writable);
    }
    var methodInfo := FindMethodUsingInterfaces(info, name);
    if methodInfo.None? {
      r := ResolveNoInfo(ifaces, name, hyphenated, ConsiderOnlyMethods, alreadyDefined);
      return;
    }
    r := if methodInfo.value.isMethod then DefinedMethod(methodInfo.value) else Unresolved;
  }
}
