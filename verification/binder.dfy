/** Typed deserialization: `JsonSerializer.Deserialize(json, targetType)`
    and `loadJsonToType`, which invokes every `set_` method of the target
    with the value the decoded table holds under that property's key. */
module Binder {
  import opened Wrappers
  import opened Values
  import JsonSerializer

  /** One `method.Invoke(targetObject, new[] { argument })` call. */
  datatype Assignment = Assignment(setter: MethodInfo, argument: RuntimeValue)

  /** What `Deserialize(json, targetType)` returns: the decoded value itself,
      or a new target instance described by the setter calls made on it. */
  datatype Deserialized = Raw(value: RuntimeValue) | Bound(target: TypeDescriptor, assignments: seq<Assignment>)

  /** Entry `i` is the first one with key `key`. */
  predicate FirstWithKey(entries: seq<KeyValue>, key: string, i: int) {
    && 0 <= i < |entries|
    && entries[i].key == key
    && forall j :: 0 <= j < i ==> entries[j].key != key
  }

  /** `jsonObject[key]` on a `Hashtable`: the value under `key`, or null
      when the key is absent. */
  function Lookup(entries: seq<KeyValue>, key: string): (r: RuntimeValue)
    ensures (forall i :: 0 <= i < |entries| ==> entries[i].key != key) ==> r == Null
    ensures forall i :: FirstWithKey(entries, key, i) ==> r == entries[i].value
  {
    if |entries| == 0 then Null
    else if entries[0].key == key then entries[0].value
    else Lookup(entries[1..], key)
  }

  /** The `set_` methods among `methods`, in order. */
  function Setters(methods: seq<MethodInfo>): (r: seq<MethodInfo>)
    decreases |methods|
  {
    if |methods| == 0 then []
    else
      var init := Setters(methods[..|methods| - 1]);
      var m := methods[|methods| - 1];
      if IsSetter(m) then init + [m] else init
  }

  lemma {:induction false} SettersAreSetters(methods: seq<MethodInfo>)
    ensures forall j :: 0 <= j < |Setters(methods)| ==> IsSetter(Setters(methods)[j])
    ensures forall j :: 0 <= j < |Setters(methods)| ==> Setters(methods)[j] in methods
    ensures forall i :: 0 <= i < |methods| && IsSetter(methods[i]) ==> methods[i] in Setters(methods)
    decreases |methods|
  {
    if |methods| > 0 {
      var init := methods[..|methods| - 1];
      SettersAreSetters(init);
      assert forall i :: 0 <= i < |init| ==> init[i] == methods[i];
    }
  }

  /** `Setters` keeps method order: the setters of two consecutive runs of
      methods are the setters of the first run, then those of the second. */
  lemma {:induction false} SettersAppend(a: seq<MethodInfo>, b: seq<MethodInfo>)
    ensures Setters(a + b) == Setters(a) + Setters(b)
    decreases |b|
  {
    if |b| > 0 {
      var init := b[..|b| - 1];
      var m := b[|b| - 1];
      SettersAppend(a, init);
      assert (a + b)[..|a + b| - 1] == a + init && (a + b)[|a + b| - 1] == m;
      assert Setters(b) == Setters(init) + (if IsSetter(m) then [m] else []);
      assert Setters(a + b) == Setters(a + init) + (if IsSetter(m) then [m] else []);
      assert Setters(a) + Setters(init) + (if IsSetter(m) then [m] else [])
          == Setters(a) + (Setters(init) + (if IsSetter(m) then [m] else []));
    } else {
      assert a + b == a;
    }
  }

  /** One method is a setter run of its own exactly when it is named `set_...`. */
  lemma SettersOfOne(m: MethodInfo)
    ensures Setters([m]) == if IsSetter(m) then [m] else []
  {
    assert [m][..0] == [];
  }

  /** Every setter's key resolves to a non-null string. */
  predicate SetterKeysResolve(setters: seq<MethodInfo>, fields: Fields) {
    forall j :: 0 <= j < |setters| ==> |setters[j].name| >= 4 && JsonKey(setters[j].name, fields).Some?
  }

  /** The argument each setter receives: the table's value under its key. */
  predicate AssignsFrom(r: seq<Assignment>, setters: seq<MethodInfo>, fields: Fields, entries: seq<KeyValue>)
    requires SetterKeysResolve(setters, fields)
  {
    && |r| == |setters|
    && forall j :: 0 <= j < |r| ==>
         r[j] == Assignment(setters[j], Lookup(entries, JsonKey(setters[j].name, fields).value))
  }

  /** The loop of `loadJsonToType`: for each method, in order, if its name
      starts with `set_`, invoke it with the table's value under its key. A
      null key makes the `Hashtable` indexer throw. */
  function AssignSetters(methods: seq<MethodInfo>, fields: Fields, entries: seq<KeyValue>): (r: Result<seq<Assignment>, Exception>)
    decreases |methods|
    ensures r.Success? <==> SetterKeysResolve(Setters(methods), fields)
    ensures r.Success? ==> AssignsFrom(r.value, Setters(methods), fields, entries)
    ensures r.Failure? ==> r.error == ArgumentNullException
  {
    if |methods| == 0 then Success([])
    else
      var init, m := methods[..|methods| - 1], methods[|methods| - 1];
      var setters := Setters(init);
      assert IsSetter(m) ==> Setters(methods) == setters + [m];
      assert forall j :: 0 <= j < |setters| ==> (setters + [m])[j] == setters[j];
      assert (setters + [m])[|setters|] == m;
      var done :- AssignSetters(init, fields, entries);
      if !IsSetter(m) then Success(done)
      else
        var key := JsonKey(m.name, fields);
        if key.None? then Failure(ArgumentNullException)
        else Success(done + [Assignment(m, Lookup(entries, key.value))])
  }

  /** `loadJsonToType`: construct the target with its parameterless
      constructor (none: `GetConstructor` gives null and the call throws
      `NullReferenceException`), then assign every setter. */
  function LoadJsonToType(target: TypeDescriptor, entries: seq<KeyValue>): (r: Result<seq<Assignment>, Exception>)
    ensures !target.hasDefaultConstructor ==> r == Failure(NullReferenceException)
    ensures target.hasDefaultConstructor ==>
      (r.Success? <==> SetterKeysResolve(Setters(target.methods), target.fields))
    ensures r.Success? ==> AssignsFrom(r.value, Setters(target.methods), target.fields, entries)
  {
    if !target.hasDefaultConstructor then Failure(NullReferenceException)
    else AssignSetters(target.methods, target.fields, entries)
  }

  /** `Deserialize(json, targetType)`, with `decode` standing for
      `JsonParser.JsonDecode`: anything but a `Hashtable` is returned as
      decoded; a `Hashtable` is bound to a new target instance. */
  function Deserialize(json: string, target: TypeDescriptor, decode: string -> RuntimeValue): (r: Result<Deserialized, Exception>)
    ensures var v := decode(json);
      !(v.Dictionary? && v.isHashtable) ==> r == Success(Raw(v))
    ensures var v := decode(json);
      v.Dictionary? && v.isHashtable ==>
        && (!target.hasDefaultConstructor ==> r == Failure(NullReferenceException))
        && (target.hasDefaultConstructor ==>
              (r.Success? <==> SetterKeysResolve(Setters(target.methods), target.fields)))
        && (r.Success? ==>
              && r.value.Bound?
              && r.value.target == target
              && AssignsFrom(r.value.assignments, Setters(target.methods), target.fields, v.entries))
  {
    var v := decode(json);
    if v.Dictionary? && v.isHashtable then
      var assignments :- LoadJsonToType(target, v.entries);
      Success(Bound(target, assignments))
    else
      Success(Raw(v))
  }

  /** A setter whose key the table lacks is invoked with null. */
  lemma MissingKeyBindsNull(target: TypeDescriptor, entries: seq<KeyValue>, j: int)
    requires LoadJsonToType(target, entries).Success?
    requires 0 <= j < |Setters(target.methods)|
    requires var key := JsonKey(Setters(target.methods)[j].name, target.fields).value;
      forall i :: 0 <= i < |entries| ==> entries[i].key != key
    ensures LoadJsonToType(target, entries).value[j].argument == Null
  {
  }

  /** What the class rule of the serializer writes under a getter's key is
      what binding that table hands the matching setter: `get_P` and `set_P`
      share their key, overridden or not, and the table's keys are unique. */
  lemma SetterReadsGetterValue(ms: seq<Member>, fields: Fields, i: int, property: string)
    requires 0 <= i < |ms| && IsReadable(ms[i].info)
    requires ms[i].info.name == "get_" + property
    requires ValidKeys(Readable(ms), fields)
    ensures JsonSerializer.BuildTable(ms, fields).Success?
    ensures JsonKey("set_" + property, fields).Some?
    ensures Lookup(JsonSerializer.BuildTable(ms, fields).value, JsonKey("set_" + property, fields).value) == ms[i].result
  {
    AccessorsShareKey(property, fields);
    JsonSerializer.ClassKeys(ms, fields);
    ReadableMembers(ms);
    var table := JsonSerializer.BuildTable(ms, fields).value;
    var readable := Readable(ms);
    assert ms[i] in readable;
    var j :| 0 <= j < |readable| && readable[j] == ms[i];
    assert table[j].key == JsonKey("set_" + property, fields).value;
  }

  /** A target with `set_Id` renamed by `JSON_Name_Id = "id"` and a plain
      `set_Name`, bound from the table {"id": 7}: `set_Id` receives 7 and
      `set_Name` receives null. */
  lemma BindsRenamedAndMissing(decode: string -> RuntimeValue, json: string)
    requires decode(json) == Dictionary(true, [KeyValue("id", Integer(Int64, 7))])
    ensures var target := TypeDescriptor(true,
        [MethodInfo("set_Id", false, OtherType, OtherType), MethodInfo("set_Name", false, OtherType, OtherType)],
        map["JSON_Name_Id" := Some("id")]);
      Deserialize(json, target, decode) == Success(Bound(target,
        [Assignment(target.methods[0], Integer(Int64, 7)), Assignment(target.methods[1], Null)]))
  {
    var target := TypeDescriptor(true,
        [MethodInfo("set_Id", false, OtherType, OtherType), MethodInfo("set_Name", false, OtherType, OtherType)],
        map["JSON_Name_Id" := Some("id")]);
    RenamedAssignments(target, decode(json).entries);
  }

  lemma RenamedAssignments(target: TypeDescriptor, entries: seq<KeyValue>)
    requires target == TypeDescriptor(true,
        [MethodInfo("set_Id", false, OtherType, OtherType), MethodInfo("set_Name", false, OtherType, OtherType)],
        map["JSON_Name_Id" := Some("id")])
    requires entries == [KeyValue("id", Integer(Int64, 7))]
    ensures LoadJsonToType(target, entries)
      == Success([Assignment(target.methods[0], Integer(Int64, 7)), Assignment(target.methods[1], Null)])
  {
    var methods := target.methods;
    RenamedTargetFacts(methods, target.fields);
    assert SetterKeysResolve(Setters(methods), target.fields);
    var r := LoadJsonToType(target, entries);
    assert Lookup(entries, "id") == Integer(Int64, 7);
    assert Lookup(entries, "Name") == Null;
    assert r.value[0].argument == Integer(Int64, 7);
    assert r.value[1].argument == Null;
    assert r.value == [Assignment(methods[0], Integer(Int64, 7)), Assignment(methods[1], Null)];
  }

  lemma RenamedTargetFacts(methods: seq<MethodInfo>, fields: Fields)
    requires methods == [MethodInfo("set_Id", false, OtherType, OtherType), MethodInfo("set_Name", false, OtherType, OtherType)]
    requires fields == map["JSON_Name_Id" := Some("id")]
    ensures Setters(methods) == methods
    ensures JsonKey("set_Id", fields) == Some("id")
    ensures JsonKey("set_Name", fields) == Some("Name")
  {
    assert "set_Id"[..4] == "set_" && "set_Id"[4..] == "Id";
    assert "set_Name"[..4] == "set_" && "set_Name"[4..] == "Name";
    assert "JSON_Name_" + "Id" == "JSON_Name_Id";
    assert "JSON_Name_" + "Name" != "JSON_Name_Id";
    assert methods[..1][..0] == [] && methods[..1] == [methods[0]];
    assert Setters(methods[..1]) == [methods[0]];
  }
}
