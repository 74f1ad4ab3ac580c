/** The introspection metadata the object bridge consults, as records, and
    the linear searches gi/object.cpp runs over them. The lookups of the
    GObject-introspection library itself (`g_object_info_find_vfunc`,
    `g_object_info_find_method_using_interfaces`, ...) are modelled as
    "first record of that name" over these records. */
module Introspection {
  import opened Wrappers
  import opened Names

  /** `GITypeTag` */
  datatype TypeTag =
    | Void | Boolean | Int8 | UInt8 | Int16 | UInt16 | Int32 | UInt32 | Int64 | UInt64
    | Float | Double | GType | Utf8 | Filename | Array | Interface | GList | GSList | GHash
    | Error | Unichar

  /** A `GIFieldInfo`: its name, the `GI_FIELD_IS_READABLE` and
      `GI_FIELD_IS_WRITABLE` flags, and the tag of its type. */
  datatype FieldInfo = FieldInfo(name: string, readable: bool, writable: bool, tag: TypeTag)

  /** A `GIFunctionInfo`: its name and whether `GI_FUNCTION_IS_METHOD` is set. */
  datatype FunctionInfo = FunctionInfo(name: string, isMethod: bool)

  /** A `GIVFuncInfo` */
  datatype VFuncInfo = VFuncInfo(name: string)

  /** A `GIInterfaceInfo`: the names of its properties, its methods and its
      virtual functions. */
  datatype InterfaceInfo = InterfaceInfo(properties: seq<string>, methods: seq<FunctionInfo>,
                                         vfuncs: seq<VFuncInfo>)

  /** A `GIObjectInfo`, with the info of its parent class if it has one. */
  datatype ObjectInfo = ObjectInfo(properties: seq<string>, interfaces: seq<InterfaceInfo>,
                                   fields: seq<FieldInfo>, methods: seq<FunctionInfo>,
                                   vfuncs: seq<VFuncInfo>, parent: Option<ObjectInfo>)

  /** The position of the first field called `name`, or `|fields|`. */
  function FieldIndex(fields: seq<FieldInfo>, name: string): (i: nat)
    ensures i <= |fields| && (i < |fields| ==> fields[i].name == name)
    ensures forall j :: 0 <= j < i ==> fields[j].name != name
  {
    if fields == [] then 0
    else if fields[0].name == name then 0
    else 1 + FieldIndex(fields[1..], name)
  }

  /** What `lookup_field_info` finds: the first field called `name`, when
      it is readable. */
  function LookupField(fields: seq<FieldInfo>, name: string): Option<FieldInfo> {
    var i := FieldIndex(fields, name);
    if i < |fields| && fields[i].readable then Some(fields[i]) else None
  }

  /** A field is found exactly when the first field of that name is
      readable, and then it is that field: an unreadable field hides a
      later one of the same name. */
  lemma LookupFieldFirst(fields: seq<FieldInfo>, name: string, k: nat)
    requires k < |fields| && fields[k].name == name
    requires forall j :: 0 <= j < k ==> fields[j].name != name
    ensures LookupField(fields, name) == if fields[k].readable then Some(fields[k]) else None
  {
  }

  /** Without a field of that name nothing is found. */
  lemma LookupFieldAbsent(fields: seq<FieldInfo>, name: string)
    requires forall j :: 0 <= j < |fields| ==> fields[j].name != name
    ensures LookupField(fields, name) == None
  {
  }

  /** `lookup_field_info`: the fields are searched in order, the search
      stops at the first name that matches, and the field is only returned
      when readable. */
  method LookupFieldInfo(info: ObjectInfo, name: string) returns (r: Option<FieldInfo>)
    ensures r == LookupField(info.fields, name)
  {
    var nFields := |info.fields|;
    var retval: Option<FieldInfo> := None;
    var ix := 0;
    while ix < nFields
      invariant ix <= nFields && retval == None
      invariant forall j :: 0 <= j < ix ==> info.fields[j].name != name
    {
      retval := Some(info.fields[ix]);
      if name == retval.value.name {
        break;
      }
      retval := None;
      ix := ix + 1;
    }
    if retval.None? {
      LookupFieldAbsent(info.fields, name);
      return None;
    }
    LookupFieldFirst(info.fields, name, ix);
    if !retval.value.readable {
      return None;
    }
    r := retval;
  }

  /** `is_ginterface_property_name`: whether the interface has a property
      called `name` (which must already be canonical). */
  method IsGInterfacePropertyName(iface: InterfaceInfo, name: string) returns (r: bool)
    ensures r <==> name in iface.properties
  {
    var nProps := |iface.properties|;
    var found := false;
    var ix := 0;
    while ix < nProps
      invariant ix <= nProps && !found
      invariant name !in iface.properties[..ix]
    {
      if name == iface.properties[ix] {
        found := true;
        break;
      }
      ix := ix + 1;
    }
    assert iface.properties[..nProps] == iface.properties;
    r := found;
  }

  /** The canonical key `key` names a property of the class or of one of
      the interfaces it implements. */
  predicate PropertyNamed(info: ObjectInfo, key: string) {
    key in info.properties || exists k :: 0 <= k < |info.interfaces| && key in info.interfaces[k].properties
  }

  /** `is_gobject_property_name` for a name whose `gjs_hyphen_from_camel`
      spelling is `hyphenated`: that spelling is canonicalized, then looked
      up among the properties of the class and then among those of its
      interfaces. */
  method IsGObjectPropertyName(info: ObjectInfo, hyphenated: string) returns (r: bool)
    requires '\0' !in hyphenated
    ensures r == PropertyNamed(info, Canonical(hyphenated))
  {
    var canonicalName := CanonicalCopy(hyphenated);
    var nProps := |info.properties|;
    var nIfaces := |info.interfaces|;
    var found := false;
    var ix := 0;
    while ix < nProps
      invariant ix <= nProps && !found
      invariant canonicalName !in info.properties[..ix]
    {
      if canonicalName == info.properties[ix] {
        found := true;
        break;
      }
      ix := ix + 1;
    }
    if found {
      return true;
    }
    assert info.properties[..nProps] == info.properties;
    ix := 0;
    while ix < nIfaces
      invariant ix <= nIfaces
      invariant forall k :: 0 <= k < ix ==> canonicalName !in info.interfaces[k].properties
    {
      var isProp := IsGInterfacePropertyName(info.interfaces[ix], canonicalName);
      if isProp {
        return true;
      }
      ix := ix + 1;
    }
    r := false;
  }

  /** The first record of `records` whose name (`nameOf`) is `name`: the
      search the introspection library runs over each list of records. */
  function FirstNamed<T>(records: seq<T>, nameOf: T -> string, name: string): (r: Option<T>)
    ensures r.Some? ==> r.value in records && nameOf(r.value) == name
    ensures r.None? ==> forall j :: 0 <= j < |records| ==> nameOf(records[j]) != name
  {
    if records == [] then None
    else if nameOf(records[0]) == name then Some(records[0])
    else FirstNamed(records[1..], nameOf, name)
  }

  /** The first function called `name`: `g_interface_info_find_method`
      over the methods of an interface. */
  function NamedFunction(fns: seq<FunctionInfo>, name: string): Option<FunctionInfo> {
    FirstNamed(fns, (f: FunctionInfo) => f.name, name)
  }

  /** The first method called `name` among those of the interfaces. */
  function InterfacesMethod(ifaces: seq<InterfaceInfo>, name: string): (r: Option<FunctionInfo>)
    ensures r.Some? ==> r.value.name == name
    // nothing is found exactly when no interface has a method of that name
    ensures r.None? <==> forall k :: 0 <= k < |ifaces| ==> NamedFunction(ifaces[k].methods, name).None?
  {
    if ifaces == [] then None
    else if NamedFunction(ifaces[0].methods, name).Some? then NamedFunction(ifaces[0].methods, name)
    else InterfacesMethod(ifaces[1..], name)
  }

  /** The interface at `k` is the first one with a method called `name`,
      and that method is the one found among the interfaces. */
  lemma {:induction false} InterfacesMethodFirst(ifaces: seq<InterfaceInfo>, name: string, k: nat)
    requires k < |ifaces| && NamedFunction(ifaces[k].methods, name).Some?
    requires forall j :: 0 <= j < k ==> NamedFunction(ifaces[j].methods, name).None?
    ensures InterfacesMethod(ifaces, name) == NamedFunction(ifaces[k].methods, name)
  {
    if k > 0 {
      assert forall j :: 0 <= j < k - 1 ==> ifaces[1..][j] == ifaces[j + 1];
      InterfacesMethodFirst(ifaces[1..], name, k - 1);
    }
  }

  /** `g_object_info_find_method_using_interfaces`: the class's own methods,
      then those of its interfaces. */
  function FindMethodUsingInterfaces(info: ObjectInfo, name: string): (r: Option<FunctionInfo>)
    ensures r.Some? ==> r.value.name == name
    // the class's own method wins
    ensures NamedFunction(info.methods, name).Some? ==> r == NamedFunction(info.methods, name)
    // nothing is found exactly when neither the class nor an interface has one
    ensures r.None? <==> && NamedFunction(info.methods, name).None?
                         && forall k :: 0 <= k < |info.interfaces| ==>
                              NamedFunction(info.interfaces[k].methods, name).None?
  {
    if NamedFunction(info.methods, name).Some? then NamedFunction(info.methods, name)
    else InterfacesMethod(info.interfaces, name)
  }

  /** Without a method of its own, the class gets the method of the first
      interface that has one. */
  lemma FindMethodFromInterface(info: ObjectInfo, name: string, k: nat)
    requires NamedFunction(info.methods, name).None?
    requires k < |info.interfaces| && NamedFunction(info.interfaces[k].methods, name).Some?
    requires forall j :: 0 <= j < k ==> NamedFunction(info.interfaces[j].methods, name).None?
    ensures FindMethodUsingInterfaces(info, name) == NamedFunction(info.interfaces[k].methods, name)
  {
    InterfacesMethodFirst(info.interfaces, name, k);
  }

  /** The first virtual function called `name`. */
  function NamedVFunc(vfuncs: seq<VFuncInfo>, name: string): Option<VFuncInfo> {
    FirstNamed(vfuncs, (v: VFuncInfo) => v.name, name)
  }

  /** The first virtual function called `name` among those of the interfaces. */
  function InterfacesVFunc(ifaces: seq<InterfaceInfo>, name: string): (r: Option<VFuncInfo>)
    ensures r.Some? ==> r.value.name == name
    ensures r.None? <==> forall k :: 0 <= k < |ifaces| ==> NamedVFunc(ifaces[k].vfuncs, name).None?
  {
    if ifaces == [] then None
    else if NamedVFunc(ifaces[0].vfuncs, name).Some? then NamedVFunc(ifaces[0].vfuncs, name)
    else InterfacesVFunc(ifaces[1..], name)
  }

  /** `g_object_info_find_vfunc`: the class's own virtual functions only. */
  function FindVFunc(info: ObjectInfo, name: string): Option<VFuncInfo> {
    NamedVFunc(info.vfuncs, name)
  }

  /** `g_object_info_find_vfunc_using_interfaces`: the class's own virtual
      functions, then those of its interfaces. */
  function FindVFuncUsingInterfaces(info: ObjectInfo, name: string): (r: Option<VFuncInfo>)
    ensures r.Some? ==> r.value.name == name
    ensures FindVFunc(info, name).Some? ==> r == FindVFunc(info, name)
    ensures r.None? <==> && FindVFunc(info, name).None?
                         && forall k :: 0 <= k < |info.interfaces| ==> NamedVFunc(info.interfaces[k].vfuncs, name).None?
  {
    if FindVFunc(info, name).Some? then FindVFunc(info, name) else InterfacesVFunc(info.interfaces, name)
  }

  /** The chain of classes from `parent` up to the root, nearest first. */
  function Ancestors(parent: Option<ObjectInfo>): (chain: seq<ObjectInfo>)
    ensures parent.None? <==> chain == []
    decreases parent
  {
    match parent
    case None => []
    case Some(p) => [p] + Ancestors(p.parent)
  }

  /** The first virtual function called `name` on `parent` or one of its
      ancestors (their own virtual functions only). */
  function VFuncInParents(parent: Option<ObjectInfo>, name: string): (r: Option<VFuncInfo>)
    ensures r.Some? ==> r.value.name == name
    // nothing is found exactly when no class of the chain has one
    ensures r.None? <==> forall k :: 0 <= k < |Ancestors(parent)| ==> FindVFunc(Ancestors(parent)[k], name).None?
    decreases parent
  {
    match parent
    case None => None
    case Some(p) =>
      assert Ancestors(parent) == [p] + Ancestors(p.parent);
      assert FindVFunc(Ancestors(parent)[0], name) == FindVFunc(p, name);
      assert forall j :: 0 <= j < |Ancestors(p.parent)| ==> Ancestors(p.parent)[j] == Ancestors(parent)[j + 1];
      if FindVFunc(p, name).Some? then FindVFunc(p, name) else VFuncInParents(p.parent, name)
  }

  /** The nearest ancestor with a virtual function called `name` provides it. */
  lemma {:induction false} VFuncInNearestParent(parent: Option<ObjectInfo>, name: string, k: nat)
    requires k < |Ancestors(parent)| && FindVFunc(Ancestors(parent)[k], name).Some?
    requires forall j :: 0 <= j < k ==> FindVFunc(Ancestors(parent)[j], name).None?
    ensures VFuncInParents(parent, name) == FindVFunc(Ancestors(parent)[k], name)
    decreases parent
  {
    var p := parent.value;
    assert Ancestors(parent) == [p] + Ancestors(p.parent);
    if k > 0 {
      assert forall j :: 0 <= j < k - 1 ==> Ancestors(p.parent)[j] == Ancestors(parent)[j + 1];
      VFuncInNearestParent(p.parent, name, k - 1);
    }
  }

  /** What `find_vfunc_on_parents` finds, and whether it had to go to the
      parents for it. */
  function VFuncOnParents(info: ObjectInfo, name: string): (Option<VFuncInfo>, bool) {
    if FindVFuncUsingInterfaces(info, name).Some? then (FindVFuncUsingInterfaces(info, name), false)
    else (VFuncInParents(info.parent, name), true)
  }

  /** `find_vfunc_on_parents`: the class itself is searched together with
      its interfaces, then each ancestor on its own, up the parent chain.
      `definedByParent` is set as soon as the class itself has no such
      virtual function, whether or not an ancestor has one. */
  method FindVFuncOnParents(info: ObjectInfo, name: string) returns (vfunc: Option<VFuncInfo>, definedByParent: bool)
    ensures (vfunc, definedByParent) == VFuncOnParents(info, name)
    ensures vfunc.Some? ==> vfunc.value.name == name
  {
    definedByParent := false;
    var parent: Option<ObjectInfo> := Some(info);
    vfunc := FindVFuncUsingInterfaces(info, name);
    while vfunc.None? && parent.Some?
      invariant !definedByParent ==> parent == Some(info) && vfunc == FindVFuncUsingInterfaces(info, name)
      invariant definedByParent ==> FindVFuncUsingInterfaces(info, name).None?
      invariant vfunc.None? && parent.Some? ==>
        VFuncInParents(parent.value.parent, name) == VFuncInParents(info.parent, name)
      invariant definedByParent && vfunc.Some? ==> vfunc == VFuncInParents(info.parent, name)
      invariant parent.None? ==> definedByParent && vfunc.None? && VFuncInParents(info.parent, name).None?
      decreases parent
    {
      parent := parent.value.parent;
      if parent.Some? {
        vfunc := FindVFunc(parent.value, name);
      }
      definedByParent := true;
    }
  }
}
