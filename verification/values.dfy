/** The runtime shapes the serializer tells apart, standing in for .NET
    reflection: what `GetType().Name`, `is IDictionary`, `is IEnumerable`,
    `IsArray` and `IsClass` would report, and, for objects, the method
    descriptors `GetMethods()` returns and the static `JSON_Name_` fields
    `GetField` finds. */
module Values {
  import opened Wrappers
  import StringExtensions

  /** `DateTimeFormat`: how a date is written. */
  datatype DateTimeFormat = Default | ISO8601 | Ajax

  datatype IntegerKind = Byte | SByte | Int16 | UInt16 | Int32 | UInt32 | Int64 | UInt64

  datatype FloatingKind = Single | Double | Decimal

  /** The types the getter filter compares a method's return and declaring
      type against; every other type is `OtherType`. */
  datatype TypeKind = DelegateType | MulticastDelegateType | MethodInfoType | OtherType

  /** A `MethodInfo`: the parts of it the serializer and binder look at. */
  datatype MethodInfo = MethodInfo(name: string, isAbstract: bool, returnType: TypeKind, declaringType: TypeKind)

  /** Public string fields of a type by name; `None` is a field holding null. */
  type Fields = map<string, Option<string>>

  /** The exceptions the modelled code can raise. */
  datatype Exception =
    | NullReferenceException
    | ArgumentNullException
    | ArgumentException(duplicateKey: string)

  datatype RuntimeValue =
    | Null
    | Bool(b: bool)
    | Str(s: string)
    | Chr(c: char)
    /** A Guid, by the text its `ToString()` gives. */
    | Guid(text: string)
    | Integer(intKind: IntegerKind, n: int)
    /** A Single, Double or Decimal, by the text its `ToString()` gives. */
    | Floating(floatKind: FloatingKind, text: string)
    | DateTime(ticks: int)
    /** An `IDictionary` (a `Hashtable` or another implementation), with
        its entries in enumeration order and keys by their `ToString()`. */
    | Dictionary(isHashtable: bool, entries: seq<KeyValue>)
    /** Any other enumerable collection: an array or e.g. an `ArrayList`. */
    | Sequence(isArray: bool, items: seq<RuntimeValue>)
    /** A `DictionaryEntry`; its key may be null. */
    | DictionaryEntry(key: Option<string>, value: RuntimeValue)
    /** Any other object: a class instance when `isClass`, otherwise a value
        type such as a user struct or an enum. `members` pairs each method
        `GetMethods()` lists with what invoking it without arguments gives. */
    | Instance(isClass: bool, members: seq<Member>, fields: Fields)

  datatype KeyValue = KeyValue(key: string, value: RuntimeValue)

  datatype Member = Member(info: MethodInfo, result: RuntimeValue)

  /** The target of typed deserialization: whether `GetConstructor(new
      Type[0])` finds a constructor, its methods and its string fields. */
  datatype TypeDescriptor = TypeDescriptor(hasDefaultConstructor: bool, methods: seq<MethodInfo>, fields: Fields)

  predicate IsDictionary(o: RuntimeValue) {
    o.Dictionary?
  }

  predicate IsArray(o: RuntimeValue) {
    o.Sequence? && o.isArray
  }

  /** `o is IEnumerable`: strings and dictionaries are enumerable too. */
  predicate IsEnumerable(o: RuntimeValue) {
    o.Str? || o.Dictionary? || o.Sequence?
  }

  /** `GetType().IsClass`: strings, collections and class instances. The
      scalars never reach this test, nor does a `DictionaryEntry`, whose own
      test comes first, so they are left out. */
  predicate IsClass(o: RuntimeValue) {
    o.Str? || o.Dictionary? || o.Sequence? || (o.Instance? && o.isClass)
  }

  /** What `foreach` over `o as IEnumerable` yields: the characters of a
      string, a `DictionaryEntry` per dictionary entry, or the items. */
  function Elements(o: RuntimeValue): (r: seq<RuntimeValue>)
    requires IsEnumerable(o)
    ensures o.Str? ==> |r| == |o.s| && forall i :: 0 <= i < |r| ==> r[i] == Chr(o.s[i])
    ensures o.Dictionary? ==> |r| == |o.entries| && forall i :: 0 <= i < |r| ==>
      r[i] == DictionaryEntry(Some(o.entries[i].key), o.entries[i].value)
    ensures o.Sequence? ==> r == o.items
  {
    match o
    case Str(s) => seq(|s|, i requires 0 <= i < |s| => Chr(s[i]))
    case Dictionary(_, es) => seq(|es|, i requires 0 <= i < |es| => DictionaryEntry(Some(es[i].key), es[i].value))
    case Sequence(_, xs) => xs
  }

  /** The public property getters the serializer reads: named `get_...`,
      not abstract, not returning a delegate or a `MethodInfo`, and not
      declared by a delegate type. */
  predicate IsReadable(m: MethodInfo) {
    && StringExtensions.StartsWith(m.name, "get_")
    && !m.isAbstract
    && m.returnType !in {DelegateType, MulticastDelegateType, MethodInfoType}
    && m.declaringType !in {DelegateType, MulticastDelegateType}
  }

  /** The property setters the binder invokes: every method named `set_...`. */
  predicate IsSetter(m: MethodInfo) {
    StringExtensions.StartsWith(m.name, "set_")
  }

  /** The JSON key of accessor `name` (which starts with a four-character
      prefix such as `get_` or `set_`): the value of the field
      `JSON_Name_<property>` when the type has one, else the property name. */
  function JsonKey(name: string, fields: Fields): (r: Option<string>)
    requires |name| >= 4
    ensures NoOverrides(fields) ==> r == Some(name[4..])
    ensures r.None? <==> OverrideField(name) in fields && fields[OverrideField(name)].None?
    ensures r != Some(name[4..]) ==> OverrideField(name) in fields && fields[OverrideField(name)] == r
    ensures OverrideField(name) in fields && fields[OverrideField(name)].Some? ==> r == fields[OverrideField(name)]
  {
    var property := name[4..];
    var field := "JSON_Name_" + property;
    if field in fields then fields[field] else Some(property)
  }

  /** The field that renames accessor `name`. */
  function OverrideField(name: string): string
    requires |name| >= 4
  {
    "JSON_Name_" + name[4..]
  }

  /** The type declares no `JSON_Name_` field at all. */
  predicate NoOverrides(fields: Fields) {
    forall f :: f in fields ==> !StringExtensions.StartsWith(f, "JSON_Name_")
  }

  /** An accessor's key depends on nothing but its property name (the text
      after the four-character prefix) and the fields. */
  lemma KeyOfProperty(a: string, b: string, fields: Fields)
    requires |a| >= 4 && |b| >= 4 && a[4..] == b[4..]
    ensures JsonKey(a, fields) == JsonKey(b, fields)
  {
  }

  /** A getter and a setter of the same property resolve to the same key. */
  lemma AccessorsShareKey(property: string, fields: Fields)
    ensures JsonKey("get_" + property, fields) == JsonKey("set_" + property, fields)
  {
    KeyOfProperty("get_" + property, "set_" + property, fields);
  }

  /** The readable getters among `members`, in order. */
  function Readable(members: seq<Member>): (r: seq<Member>)
    decreases |members|
  {
    if |members| == 0 then []
    else
      var init := Readable(members[..|members| - 1]);
      var m := members[|members| - 1];
      if IsReadable(m.info) then init + [m] else init
  }

  /** `Readable` keeps exactly the readable members, none twice over. */
  lemma {:induction false} ReadableMembers(members: seq<Member>)
    ensures forall j :: 0 <= j < |Readable(members)| ==> IsReadable(Readable(members)[j].info)
    ensures forall j :: 0 <= j < |Readable(members)| ==> Readable(members)[j] in members
    ensures forall i :: 0 <= i < |members| && IsReadable(members[i].info) ==> members[i] in Readable(members)
    decreases |members|
  {
    if |members| > 0 {
      var init, m := members[..|members| - 1], members[|members| - 1];
      ReadableMembers(init);
      assert init + [m] == members;
      ReadableSnoc(init, m);
      assert forall i :: 0 <= i < |init| ==> init[i] == members[i];
    }
  }

  /** `Readable` keeps member order across two consecutive runs. */
  lemma {:induction false} ReadableAppend(a: seq<Member>, b: seq<Member>)
    ensures Readable(a + b) == Readable(a) + Readable(b)
    decreases |b|
  {
    if |b| > 0 {
      var init, m := b[..|b| - 1], b[|b| - 1];
      ReadableAppend(a, init);
      assert (a + b)[..|a + b| - 1] == a + init && (a + b)[|a + b| - 1] == m;
      assert Readable(b) == Readable(init) + (if IsReadable(m.info) then [m] else []);
      assert Readable(a + b) == Readable(a + init) + (if IsReadable(m.info) then [m] else []);
      assert Readable(a) + Readable(init) + (if IsReadable(m.info) then [m] else [])
          == Readable(a) + (Readable(init) + (if IsReadable(m.info) then [m] else []));
    } else {
      assert a + b == a;
    }
  }

  /** Readable members at positions `i < j` keep their order among the
      readable members. */
  lemma ReadablePositions(ms: seq<Member>, i: int, j: int) returns (i': int, j': int)
    requires 0 <= i < j < |ms| && IsReadable(ms[i].info) && IsReadable(ms[j].info)
    ensures 0 <= i' < j' < |Readable(ms)|
    ensures Readable(ms)[i'] == ms[i] && Readable(ms)[j'] == ms[j]
  {
    var a, b := ms[..j], ms[j..];
    assert a + b == ms;
    ReadableAppend(a, b);
    ReadableHead(b);
    ReadableMembers(a);
    assert a[i] == ms[i];
    i' :| 0 <= i' < |Readable(a)| && Readable(a)[i'] == ms[i];
    j' := |Readable(a)|;
  }

  lemma ReadableHead(b: seq<Member>)
    requires |b| > 0 && IsReadable(b[0].info)
    ensures |Readable(b)| > 0 && Readable(b)[0] == b[0]
  {
    assert [b[0]] + b[1..] == b;
    ReadableAppend([b[0]], b[1..]);
    assert [b[0]][..0] == [];
  }

  /** Two readable getters at positions `i < j` whose keys agree leave the
      keys invalid: a null key, or the same key twice. */
  lemma SharedKeyInvalidates(ms: seq<Member>, fields: Fields, i: int, j: int)
    requires 0 <= i < j < |ms| && IsReadable(ms[i].info) && IsReadable(ms[j].info)
    requires JsonKey(ms[i].info.name, fields) == JsonKey(ms[j].info.name, fields)
    ensures !ValidKeys(Readable(ms), fields)
  {
    var i', j' := ReadablePositions(ms, i, j);
  }

  /** Every readable member resolves to a non-null key. */
  predicate KeysResolve(readable: seq<Member>, fields: Fields) {
    forall j :: 0 <= j < |readable| ==>
      |readable[j].info.name| >= 4 && JsonKey(readable[j].info.name, fields).Some?
  }

  /** No two readable members resolve to the same key. */
  predicate KeysDistinct(readable: seq<Member>, fields: Fields)
    requires KeysResolve(readable, fields)
  {
    forall i, j :: 0 <= i < j < |readable| ==>
      JsonKey(readable[i].info.name, fields) != JsonKey(readable[j].info.name, fields)
  }

  /** `Hashtable.Add` accepts the key of every readable member. */
  predicate ValidKeys(readable: seq<Member>, fields: Fields) {
    KeysResolve(readable, fields) && KeysDistinct(readable, fields)
  }

  /** Two of the readable members, at different positions, resolve to the
      key `k`. */
  predicate RepeatedKey(readable: seq<Member>, fields: Fields, k: string) {
    exists i, j :: 0 <= i < j < |readable| && KeyIs(readable[i], fields, k) && KeyIs(readable[j], fields, k)
  }

  predicate KeyIs(m: Member, fields: Fields, k: string) {
    |m.info.name| >= 4 && JsonKey(m.info.name, fields) == Some(k)
  }

  /** A null key or a repeated key among the readable members stays so when
      one more member is listed. */
  lemma BadKeysSnoc(readable: seq<Member>, m: Member, fields: Fields, k: string)
    ensures !KeysResolve(readable, fields) ==> !KeysResolve(readable + [m], fields)
    ensures RepeatedKey(readable, fields, k) ==> RepeatedKey(readable + [m], fields, k)
  {
    var r := readable + [m];
    if !KeysResolve(readable, fields) {
      var j :| 0 <= j < |readable| && !(|readable[j].info.name| >= 4 && JsonKey(readable[j].info.name, fields).Some?);
      assert r[j] == readable[j];
    }
    if RepeatedKey(readable, fields, k) {
      var i, j :| 0 <= i < j < |readable| && KeyIs(readable[i], fields, k) && KeyIs(readable[j], fields, k);
      assert r[i] == readable[i] && r[j] == readable[j];
    }
  }

  /** How the readable members change when one more member is listed. */
  lemma ReadableSnoc(init: seq<Member>, m: Member)
    ensures Readable(init + [m]) == if IsReadable(m.info) then Readable(init) + [m] else Readable(init)
  {
    assert (init + [m])[..|init|] == init;
  }

  /** Listing one more readable member keeps the keys valid exactly when its
      key is non-null and new. */
  lemma ValidKeysSnoc(readable: seq<Member>, m: Member, fields: Fields)
    ensures |m.info.name| >= 4 && JsonKey(m.info.name, fields).None? ==> !KeysResolve(readable + [m], fields)
    ensures |m.info.name| >= 4 ==> (ValidKeys(readable + [m], fields) <==>
      && ValidKeys(readable, fields)
      && JsonKey(m.info.name, fields).Some?
      && forall j :: 0 <= j < |readable| ==> JsonKey(readable[j].info.name, fields) != JsonKey(m.info.name, fields))
  {
    var r := readable + [m];
    assert forall j :: 0 <= j < |readable| ==> r[j] == readable[j];
    assert r[|readable|] == m;
  }

  /** Rank used to show that encoding terminates. */
  function Size(o: RuntimeValue): nat {
    match o
    case Dictionary(_, es) => 1 + EntriesSize(es)
    case Sequence(_, xs) => 1 + ItemsSize(xs)
    case DictionaryEntry(_, v) => 1 + Size(v)
    case Instance(_, ms, _) => 1 + MembersSize(ms)
    case _ => 1
  }

  function EntriesSize(es: seq<KeyValue>): nat
    decreases es
  {
    if |es| == 0 then 0 else EntriesSize(es[..|es| - 1]) + Size(es[|es| - 1].value) + 1
  }

  function ItemsSize(xs: seq<RuntimeValue>): nat
    decreases xs
  {
    if |xs| == 0 then 0 else ItemsSize(xs[..|xs| - 1]) + Size(xs[|xs| - 1]) + 1
  }

  function MembersSize(ms: seq<Member>): nat
    decreases ms
  {
    if |ms| == 0 then 0
    else
      var m := ms[|ms| - 1];
      assert m.result < m;
      MembersSize(ms[..|ms| - 1]) + Size(m.result) + 1
  }
}
