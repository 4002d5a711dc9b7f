/** `JsonSerializer.SerializeObject` and its helpers: a dispatch on the
    runtime shape of a value, in the order the source tests the shapes. */
module JsonSerializer {
  import opened Wrappers
  import opened Values
  import opened TextJoin
  import DecimalText

  /** `DateTimeExtensions.ToIso8601` and `ToASPNetAjax`, which are not part
      of this model, as given functions of a date's ticks. */
  datatype DateRenderers = DateRenderers(iso8601: int -> string, aspNetAjax: int -> string)

  function Quote(t: string): string {
    "\"" + t + "\""
  }

  /** What `result += x` appends when `x` may be a null string. */
  function NullAsEmpty(x: Option<string>): string {
    x.GetOr("")
  }

  /** The text of `Str`, `Chr` and `Guid` values, as `ToString()` gives it. */
  function TextOf(o: RuntimeValue): string
    requires o.Str? || o.Chr? || o.Guid?
  {
    match o
    case Str(s) => s
    case Chr(c) => [c]
    case Guid(t) => t
  }

  /** A value type the serializer has no rule for: it returns null. */
  predicate IsUnsupported(o: RuntimeValue) {
    o.Instance? && !o.isClass
  }

  /** Serializing `o` raises an exception: somewhere inside it a
      `DictionaryEntry` has a null key (`ArgumentNullException` from
      `Hashtable.Add`), or a class has a readable getter whose key is null
      or is shared with another getter (`Hashtable.Add` again). Members of a
      struct and dictionary keys are never added to a table. */
  predicate Throws(o: RuntimeValue) {
    match o
    case Dictionary(_, es) => exists i :: 0 <= i < |es| && Throws(es[i].value)
    case Sequence(_, xs) => exists i :: 0 <= i < |xs| && Throws(xs[i])
    case DictionaryEntry(k, v) => k.None? || Throws(v)
    case Instance(isClass, ms, fields) =>
      && isClass
      && (|| !ValidKeys(Readable(ms), fields)
          || exists i :: 0 <= i < |ms| && IsReadable(ms[i].info) && Throws(ms[i].result))
    case _ => false
  }

  /** `SerializeObject(o, dateTimeFormat)`: `Success(Some(text))` for the
      JSON text, `Success(None)` for the null reference returned for an
      unsupported value, `Failure(e)` when exception `e` is raised. The
      `switch` on the type name comes first. */
  function SerializeObject(o: RuntimeValue, format: DateTimeFormat, dates: DateRenderers): (r: Result<Option<string>, Exception>)
    decreases Size(o), 4
    ensures r.Failure? <==> Throws(o)
    ensures r == Success(None) <==> IsUnsupported(o)
  {
    match o
    case Null => Success(Some("null"))
    case Bool(b) => Success(Some(if b then "true" else "false"))
    case Str(_) => Success(Some(Quote(TextOf(o))))
    case Chr(_) => Success(Some(Quote(TextOf(o))))
    case Guid(_) => Success(Some(Quote(TextOf(o))))
    case Integer(_, n) => Success(Some(DecimalText.IntegerText(n)))
    case Floating(_, t) => Success(Some(t))
    case DateTime(ticks) =>
      if format == Ajax then Success(Some(Quote(dates.aspNetAjax(ticks))))
      else Success(Some(Quote(dates.iso8601(ticks))))
    case Dictionary(_, _) => SerializeReference(o, format, dates)
    case Sequence(_, _) => SerializeReference(o, format, dates)
    case DictionaryEntry(_, _) => SerializeReference(o, format, dates)
    case Instance(_, _, _) => SerializeReference(o, format, dates)
  }

  /** The tests after the type-name `switch`, in source order: dictionary
      (and not an array), enumerable, `DictionaryEntry`, class, else null. */
  function SerializeReference(o: RuntimeValue, format: DateTimeFormat, dates: DateRenderers): (r: Result<Option<string>, Exception>)
    requires o.Dictionary? || o.Sequence? || o.DictionaryEntry? || o.Instance?
    decreases Size(o), 3
    ensures r.Failure? <==> Throws(o)
    ensures r == Success(None) <==> IsUnsupported(o)
  {
    if IsDictionary(o) && !IsArray(o) then
      var t :- SerializeIDictionary(o.entries, format, dates);
      Success(Some(t))
    else if IsEnumerable(o) then
      var t :- SerializeIEnumerable(Elements(o), format, dates);
      Success(Some(t))
    else if o.DictionaryEntry? then
      if o.key.None? then Failure(ArgumentNullException)
      else
        assert EntriesSize([KeyValue(o.key.value, o.value)]) == Size(o);
        var t :- SerializeIDictionary([KeyValue(o.key.value, o.value)], format, dates);
        Success(Some(t))
    else if IsClass(o) then
      SerializeClass(o, format, dates)
    else
      Success(None)
  }

  /** The class rule: fill a `Hashtable` from the readable getters, then
      serialize it as a dictionary. */
  function SerializeClass(o: RuntimeValue, format: DateTimeFormat, dates: DateRenderers): (r: Result<Option<string>, Exception>)
    requires o.Instance? && o.isClass
    decreases Size(o), 2
    ensures r.Failure? <==> Throws(o)
    ensures r.Success? ==> r.value.Some?
  {
    var table :- BuildTable(o.members, o.fields);
    ReadableMembers(o.members);
    var t :- SerializeIDictionary(table, format, dates);
    Success(Some(t))
  }

  /** The texts the loop of `SerializeIEnumerable` appends, one per item. */
  function EncodeItems(xs: seq<RuntimeValue>, format: DateTimeFormat, dates: DateRenderers): (r: Result<seq<string>, Exception>)
    decreases ItemsSize(xs), 0
    ensures r.Success? ==> |r.value| == |xs|
    ensures r.Failure? <==> exists i :: 0 <= i < |xs| && Throws(xs[i])
  {
    if |xs| == 0 then Success([])
    else
      var init :- EncodeItems(xs[..|xs| - 1], format, dates);
      var last :- SerializeObject(xs[|xs| - 1], format, dates);
      Success(init + [NullAsEmpty(last)])
  }

  /** `SerializeIEnumerable`: "[" and the items joined by the length-probe
      comma rule, then "]". */
  function SerializeIEnumerable(xs: seq<RuntimeValue>, format: DateTimeFormat, dates: DateRenderers): (r: Result<string, Exception>)
    decreases ItemsSize(xs), 1
    ensures r.Failure? <==> exists i :: 0 <= i < |xs| && Throws(xs[i])
  {
    var pieces :- EncodeItems(xs, format, dates);
    Success(ProbeJoin("[", pieces) + "]")
  }

  /** One member of a JSON object: the key in quotes, unescaped, a colon,
      and the value's text. */
  function MemberText(key: string, value: Option<string>): string {
    Quote(key) + ":" + NullAsEmpty(value)
  }

  /** The texts the loop of `SerializeIDictionary` appends, one per entry. */
  function EncodeEntries(es: seq<KeyValue>, format: DateTimeFormat, dates: DateRenderers): (r: Result<seq<string>, Exception>)
    decreases EntriesSize(es), 0
    ensures r.Success? ==> |r.value| == |es|
    ensures r.Failure? <==> exists i :: 0 <= i < |es| && Throws(es[i].value)
  {
    if |es| == 0 then Success([])
    else
      var init :- EncodeEntries(es[..|es| - 1], format, dates);
      var last :- SerializeObject(es[|es| - 1].value, format, dates);
      Success(init + [MemberText(es[|es| - 1].key, last)])
  }

  /** `SerializeIDictionary`: "{" and the members joined by the
      length-probe comma rule, then "}". */
  function SerializeIDictionary(es: seq<KeyValue>, format: DateTimeFormat, dates: DateRenderers): (r: Result<string, Exception>)
    decreases EntriesSize(es), 1
    ensures r.Failure? <==> exists i :: 0 <= i < |es| && Throws(es[i].value)
  {
    var pieces :- EncodeEntries(es, format, dates);
    Success(ProbeJoin("{", pieces) + "}")
  }

  /** The `Hashtable` the class rule fills: for each readable getter, in
      method order, `Add(key, value)`, which raises `ArgumentNullException`
      for a null key and `ArgumentException` for a key already present. */
  function BuildTable(ms: seq<Member>, fields: Fields): (r: Result<seq<KeyValue>, Exception>)
    decreases |ms|
    ensures r.Success? <==> ValidKeys(Readable(ms), fields)
    ensures r.Success? ==> Tabulates(r.value, Readable(ms), fields)
    ensures r.Success? ==> EntriesSize(r.value) <= MembersSize(ms)
    ensures r.Failure? ==> r.error == ArgumentNullException || r.error.ArgumentException?
    ensures r.Failure? && r.error == ArgumentNullException ==> !KeysResolve(Readable(ms), fields)
    ensures r.Failure? && r.error.ArgumentException? ==> RepeatedKey(Readable(ms), fields, r.error.duplicateKey)
  {
    if |ms| == 0 then Success([])
    else
      var init, m := ms[..|ms| - 1], ms[|ms| - 1];
      assert init + [m] == ms;
      ReadableSnoc(init, m);
      ValidKeysSnoc(Readable(init), m, fields);
      var previous := BuildTable(init, fields);
      BadKeysSnoc(Readable(init), m, fields, if previous.Failure? && previous.error.ArgumentException? then previous.error.duplicateKey else "");
      var table :- previous;
      if !IsReadable(m.info) then Success(table)
      else AddGetter(table, Readable(init), m, fields)
  }

  /** `hashtable.Add(key, value)` for one more readable getter `m`. */
  function AddGetter(table: seq<KeyValue>, readable: seq<Member>, m: Member, fields: Fields): (r: Result<seq<KeyValue>, Exception>)
    requires Tabulates(table, readable, fields)
    requires |m.info.name| >= 4
    ensures r.Success? <==>
      && JsonKey(m.info.name, fields).Some?
      && forall j :: 0 <= j < |readable| ==> JsonKey(readable[j].info.name, fields) != JsonKey(m.info.name, fields)
    ensures r.Success? ==> Tabulates(r.value, readable + [m], fields)
    ensures r.Success? ==> EntriesSize(r.value) == EntriesSize(table) + Size(m.result) + 1
    ensures r.Failure? ==>
      || (r.error == ArgumentNullException && JsonKey(m.info.name, fields).None?)
      || (r.error.ArgumentException? && RepeatedKey(readable + [m], fields, r.error.duplicateKey))
  {
    var key := JsonKey(m.info.name, fields);
    if key.None? then Failure(ArgumentNullException)
    else
      TabulatesSnoc(table, readable, m, fields);
      TabulatedRepeat(table, readable, m, fields);
      if exists j :: 0 <= j < |table| && table[j].key == key.value then Failure(ArgumentException(key.value))
      else Success(table + [KeyValue(key.value, m.result)])
  }

  /** `table` holds, in order, the JSON key and the value of each of the
      readable members. */
  predicate Tabulates(table: seq<KeyValue>, readable: seq<Member>, fields: Fields) {
    && |table| == |readable|
    && forall j :: 0 <= j < |table| ==>
      && |readable[j].info.name| >= 4
      && JsonKey(readable[j].info.name, fields) == Some(table[j].key)
      && table[j].value == readable[j].result
  }

  /** One `Add` on a table that tabulates the members so far: the key is
      already present exactly when an earlier member resolves to it. */
  lemma TabulatesSnoc(table: seq<KeyValue>, readable: seq<Member>, m: Member, fields: Fields)
    requires Tabulates(table, readable, fields)
    requires |m.info.name| >= 4 && JsonKey(m.info.name, fields).Some?
    ensures var key := JsonKey(m.info.name, fields).value;
      && Tabulates(table + [KeyValue(key, m.result)], readable + [m], fields)
      && ((exists j :: 0 <= j < |table| && table[j].key == key) <==>
          !forall j :: 0 <= j < |readable| ==> JsonKey(readable[j].info.name, fields) != JsonKey(m.info.name, fields))
      && EntriesSize(table + [KeyValue(key, m.result)]) == EntriesSize(table) + Size(m.result) + 1
  {
    var key := JsonKey(m.info.name, fields).value;
    TabulatesAppend(table, readable, KeyValue(key, m.result), m, fields);
    var t := table + [KeyValue(key, m.result)];
    assert t[..|table|] == table;
  }

  lemma TabulatedRepeat(table: seq<KeyValue>, readable: seq<Member>, m: Member, fields: Fields)
    requires Tabulates(table, readable, fields)
    requires |m.info.name| >= 4 && JsonKey(m.info.name, fields).Some?
    ensures var key := JsonKey(m.info.name, fields).value;
      (exists j :: 0 <= j < |table| && table[j].key == key) ==> RepeatedKey(readable + [m], fields, key)
  {
    var key := JsonKey(m.info.name, fields).value;
    var r := readable + [m];
    if j :| 0 <= j < |table| && table[j].key == key {
      assert r[j] == readable[j] && r[|readable|] == m;
      assert KeyIs(r[j], fields, key) && KeyIs(r[|readable|], fields, key);
    }
  }

  lemma TabulatesAppend(table: seq<KeyValue>, readable: seq<Member>, e: KeyValue, m: Member, fields: Fields)
    requires Tabulates(table, readable, fields)
    requires |m.info.name| >= 4 && JsonKey(m.info.name, fields) == Some(e.key) && e.value == m.result
    ensures Tabulates(table + [e], readable + [m], fields)
  {
    var t, r := table + [e], readable + [m];
    forall j | 0 <= j < |t|
      ensures |r[j].info.name| >= 4 && JsonKey(r[j].info.name, fields) == Some(t[j].key) && t[j].value == r[j].result
    {
      if j < |table| {
        assert t[j] == table[j] && r[j] == readable[j];
      }
    }
  }

  /** The text `result += SerializeObject(v)` appends, for a value that
      serializes without an exception. */
  function Fragment(v: RuntimeValue, format: DateTimeFormat, dates: DateRenderers): string
    requires !Throws(v)
  {
    NullAsEmpty(SerializeObject(v, format, dates).value)
  }

  predicate NoneThrows(xs: seq<RuntimeValue>) {
    forall i :: 0 <= i < |xs| ==> !Throws(xs[i])
  }

  predicate NoValueThrows(es: seq<KeyValue>) {
    forall i :: 0 <= i < |es| ==> !Throws(es[i].value)
  }

  function Fragments(xs: seq<RuntimeValue>, format: DateTimeFormat, dates: DateRenderers): (r: seq<string>)
    requires NoneThrows(xs)
    ensures |r| == |xs|
    ensures forall i :: 0 <= i < |xs| ==> r[i] == Fragment(xs[i], format, dates)
  {
    seq(|xs|, i requires 0 <= i < |xs| => Fragment(xs[i], format, dates))
  }

  function MemberTexts(es: seq<KeyValue>, format: DateTimeFormat, dates: DateRenderers): (r: seq<string>)
    requires NoValueThrows(es)
    ensures |r| == |es|
    ensures forall i :: 0 <= i < |es| ==> r[i] == MemberText(es[i].key, SerializeObject(es[i].value, format, dates).value)
  {
    seq(|es|, i requires 0 <= i < |es| => MemberText(es[i].key, SerializeObject(es[i].value, format, dates).value))
  }

  lemma {:induction false} EncodeItemsFragments(xs: seq<RuntimeValue>, format: DateTimeFormat, dates: DateRenderers)
    requires NoneThrows(xs)
    ensures EncodeItems(xs, format, dates) == Success(Fragments(xs, format, dates))
    decreases |xs|
  {
    if |xs| > 0 {
      var init, x := xs[..|xs| - 1], xs[|xs| - 1];
      assert init + [x] == xs;
      FragmentsSnoc(init, x, format, dates);
      EncodeItemsFragments(init, format, dates);
    }
  }

  lemma FragmentsSnoc(init: seq<RuntimeValue>, x: RuntimeValue, format: DateTimeFormat, dates: DateRenderers)
    requires NoneThrows(init + [x])
    ensures NoneThrows(init) && !Throws(x)
    ensures Fragments(init + [x], format, dates) == Fragments(init, format, dates) + [Fragment(x, format, dates)]
  {
    assert forall i :: 0 <= i < |init| ==> (init + [x])[i] == init[i];
    assert (init + [x])[|init|] == x;
  }

  lemma {:induction false} EncodeEntriesMemberTexts(es: seq<KeyValue>, format: DateTimeFormat, dates: DateRenderers)
    requires NoValueThrows(es)
    ensures EncodeEntries(es, format, dates) == Success(MemberTexts(es, format, dates))
    decreases |es|
  {
    if |es| > 0 {
      var init, e := es[..|es| - 1], es[|es| - 1];
      assert init + [e] == es;
      MemberTextsSnoc(init, e, format, dates);
      EncodeEntriesMemberTexts(init, format, dates);
    }
  }

  lemma MemberTextsSnoc(init: seq<KeyValue>, e: KeyValue, format: DateTimeFormat, dates: DateRenderers)
    requires NoValueThrows(init + [e])
    ensures NoValueThrows(init) && !Throws(e.value)
    ensures MemberTexts(init + [e], format, dates)
      == MemberTexts(init, format, dates) + [MemberText(e.key, SerializeObject(e.value, format, dates).value)]
  {
    assert forall i :: 0 <= i < |init| ==> (init + [e])[i] == init[i];
    assert (init + [e])[|init|] == e;
  }

  /** An enumerable serializes as "[", the item texts after the leading run
      of empty ones joined by ",", and "]". */
  lemma EnumerableText(xs: seq<RuntimeValue>, format: DateTimeFormat, dates: DateRenderers)
    requires NoneThrows(xs)
    ensures SerializeIEnumerable(xs, format, dates)
      == Success("[" + Join(",", DropLeadingEmpty(Fragments(xs, format, dates))) + "]")
  {
    EncodeItemsFragments(xs, format, dates);
    ProbeJoinIsJoin("[", Fragments(xs, format, dates));
  }

  /** When every item has a non-empty text, the array is exactly those texts
      joined by commas in iteration order; no items give "[]". */
  lemma EnumerableOfNonEmptyText(xs: seq<RuntimeValue>, format: DateTimeFormat, dates: DateRenderers)
    requires NoneThrows(xs)
    requires forall i :: 0 <= i < |xs| ==> Fragment(xs[i], format, dates) != ""
    ensures SerializeIEnumerable(xs, format, dates) == Success("[" + Join(",", Fragments(xs, format, dates)) + "]")
    ensures |xs| == 0 ==> SerializeIEnumerable(xs, format, dates) == Success("[]")
  {
    EncodeItemsFragments(xs, format, dates);
    ProbeJoinNonEmpty("[", Fragments(xs, format, dates));
    assert "[" + "" + "]" == "[]";
  }

  /** An unsupported first item contributes nothing, and since the text is
      still "[" when the second item comes, no comma precedes it either. */
  lemma UnsupportedFirstItemVanishes(x: RuntimeValue, rest: seq<RuntimeValue>, format: DateTimeFormat, dates: DateRenderers)
    requires IsUnsupported(x)
    requires NoneThrows(rest)
    ensures SerializeIEnumerable([x] + rest, format, dates) == SerializeIEnumerable(rest, format, dates)
  {
    var xs := [x] + rest;
    UnsupportedHeadFragments(x, rest, format, dates);
    EncodeItemsFragments(xs, format, dates);
    EncodeItemsFragments(rest, format, dates);
    ProbeJoinEmptyHead("[", Fragments(rest, format, dates));
  }

  lemma UnsupportedHeadFragments(x: RuntimeValue, rest: seq<RuntimeValue>, format: DateTimeFormat, dates: DateRenderers)
    requires IsUnsupported(x)
    requires NoneThrows(rest)
    ensures NoneThrows([x] + rest)
    ensures Fragments([x] + rest, format, dates) == [""] + Fragments(rest, format, dates)
  {
    var xs := [x] + rest;
    assert forall i :: 1 <= i < |xs| ==> xs[i] == rest[i - 1];
    assert Fragment(x, format, dates) == "";
  }

  /** An unsupported item after a supported one leaves a dangling comma:
      `[1, <struct>]` becomes the text `[1,]`, which is not JSON. */
  lemma UnsupportedLaterItemLeavesComma(format: DateTimeFormat, dates: DateRenderers)
    ensures SerializeObject(Sequence(true, [Integer(Int32, 1), Instance(false, [], map[])]), format, dates)
      == Success(Some("[1,]"))
  {
    var xs := [Integer(Int32, 1), Instance(false, [], map[])];
    OneThenUnsupportedTexts(xs, format, dates);
    DanglingComma();
    assert SerializeIEnumerable(xs, format, dates) == Success("[1,]");
    SequenceUsesEnumerable(true, xs, format, dates);
  }

  lemma DanglingComma()
    ensures ProbeJoin("[", ["1", ""]) + "]" == "[1,]"
  {
    assert ["1", ""][..1] == ["1"] && ["1"][..0] == [];
    assert ProbeJoin("[", ["1", ""]) == "[1,";
  }

  lemma SequenceUsesEnumerable(isArray: bool, xs: seq<RuntimeValue>, format: DateTimeFormat, dates: DateRenderers)
    ensures SerializeIEnumerable(xs, format, dates).Success? ==>
      SerializeObject(Sequence(isArray, xs), format, dates) == Success(Some(SerializeIEnumerable(xs, format, dates).value))
  {
    assert Elements(Sequence(isArray, xs)) == xs;
  }

  lemma OneThenUnsupportedTexts(xs: seq<RuntimeValue>, format: DateTimeFormat, dates: DateRenderers)
    requires xs == [Integer(Int32, 1), Instance(false, [], map[])]
    ensures EncodeItems(xs, format, dates) == Success(["1", ""])
  {
    assert DecimalText.IntegerText(1) == "1";
    var one := xs[..1];
    assert one[..0] == [] && one == [xs[0]];
    assert EncodeItems(one[..0], format, dates) == Success([]);
    assert SerializeObject(one[0], format, dates) == Success(Some("1"));
    assert EncodeItems(one, format, dates) == Success([] + ["1"]);
    assert [] + ["1"] == ["1"] && ["1"] + [""] == ["1", ""];
    assert SerializeObject(xs[1], format, dates) == Success(None);
  }

  /** A dictionary serializes as "{", its members `"key":text` joined by
      exactly one comma between neighbours, and "}"; no entries give "{}". */
  lemma DictionaryText(es: seq<KeyValue>, format: DateTimeFormat, dates: DateRenderers)
    requires NoValueThrows(es)
    ensures SerializeIDictionary(es, format, dates) == Success("{" + Join(",", MemberTexts(es, format, dates)) + "}")
    ensures |es| == 0 ==> SerializeIDictionary(es, format, dates) == Success("{}")
  {
    EncodeEntriesMemberTexts(es, format, dates);
    ProbeJoinNonEmpty("{", MemberTexts(es, format, dates));
    assert "{" + "" + "}" == "{}";
  }

  /** Null and Boolean values. */
  lemma NullAndBoolean(b: bool, format: DateTimeFormat, dates: DateRenderers)
    ensures SerializeObject(Null, format, dates) == Success(Some("null"))
    ensures SerializeObject(Bool(b), format, dates) == Success(Some(if b then "true" else "false"))
  {
  }

  /** Strings, characters and Guids are their text in double quotes with no
      escaping: quotes and backslashes inside pass through verbatim. */
  lemma TextIsQuotedVerbatim(o: RuntimeValue, format: DateTimeFormat, dates: DateRenderers)
    requires o.Str? || o.Chr? || o.Guid?
    ensures SerializeObject(o, format, dates).Success?
    ensures SerializeObject(o, format, dates).value.Some?
    ensures var t := SerializeObject(o, format, dates).value.value;
      && |t| == |TextOf(o)| + 2
      && t[0] == '"' && t[|t| - 1] == '"'
      && t[1..|t| - 1] == TextOf(o)
  {
  }

  /** An integral value serializes as decimal text that reads back as it. */
  lemma IntegerIsDecimal(k: IntegerKind, n: int, format: DateTimeFormat, dates: DateRenderers)
    ensures SerializeObject(Integer(k, n), format, dates).Success?
    ensures SerializeObject(Integer(k, n), format, dates).value.Some?
    ensures DecimalText.ParseInteger(SerializeObject(Integer(k, n), format, dates).value.value) == Some(n)
  {
    DecimalText.IntegerTextRoundTrip(n);
  }

  /** A date is quoted; the Ajax format picks `ToASPNetAjax`, and ISO8601
      and Default both pick `ToIso8601`. */
  lemma DateTimeFollowsFormat(ticks: int, dates: DateRenderers)
    ensures SerializeObject(DateTime(ticks), Ajax, dates) == Success(Some(Quote(dates.aspNetAjax(ticks))))
    ensures SerializeObject(DateTime(ticks), ISO8601, dates) == Success(Some(Quote(dates.iso8601(ticks))))
    ensures SerializeObject(DateTime(ticks), Default, dates) == SerializeObject(DateTime(ticks), ISO8601, dates)
  {
  }

  /** A dictionary, although enumerable, serializes as an object and never
      as the array of its entries the enumerable rule would give. */
  lemma DictionaryIsObject(isHashtable: bool, es: seq<KeyValue>, format: DateTimeFormat, dates: DateRenderers)
    requires NoValueThrows(es)
    ensures IsEnumerable(Dictionary(isHashtable, es))
    ensures SerializeObject(Dictionary(isHashtable, es), format, dates)
      == Success(Some("{" + Join(",", MemberTexts(es, format, dates)) + "}"))
    ensures var xs := Elements(Dictionary(isHashtable, es));
      && NoneThrows(xs)
      && SerializeIEnumerable(xs, format, dates).Success?
      && SerializeIEnumerable(xs, format, dates).value[0] == '['
  {
    DictionaryText(es, format, dates);
    DictionaryUsesIDictionary(isHashtable, es, format, dates);
    DictionaryElements(isHashtable, es, format, dates);
  }

  lemma DictionaryUsesIDictionary(isHashtable: bool, es: seq<KeyValue>, format: DateTimeFormat, dates: DateRenderers)
    ensures SerializeIDictionary(es, format, dates).Success? ==>
      SerializeObject(Dictionary(isHashtable, es), format, dates) == Success(Some(SerializeIDictionary(es, format, dates).value))
  {
    assert IsDictionary(Dictionary(isHashtable, es)) && !IsArray(Dictionary(isHashtable, es));
  }

  lemma DictionaryElements(isHashtable: bool, es: seq<KeyValue>, format: DateTimeFormat, dates: DateRenderers)
    requires NoValueThrows(es)
    ensures var xs := Elements(Dictionary(isHashtable, es));
      && NoneThrows(xs)
      && SerializeIEnumerable(xs, format, dates).Success?
      && SerializeIEnumerable(xs, format, dates).value[0] == '['
  {
    var xs := Elements(Dictionary(isHashtable, es));
    assert forall i :: 0 <= i < |xs| ==> xs[i] == DictionaryEntry(Some(es[i].key), es[i].value);
    EnumerableText(xs, format, dates);
  }

  /** A string, although enumerable, serializes as quoted text and never as
      the array of its characters. */
  lemma StringIsNotEnumerated(s: string, format: DateTimeFormat, dates: DateRenderers)
    ensures IsEnumerable(Str(s))
    ensures SerializeObject(Str(s), format, dates) == Success(Some(Quote(s)))
    ensures var xs := Elements(Str(s));
      && NoneThrows(xs)
      && SerializeIEnumerable(xs, format, dates).Success?
      && SerializeIEnumerable(xs, format, dates).value[0] == '['
  {
    var xs := Elements(Str(s));
    assert forall i :: 0 <= i < |xs| ==> xs[i] == Chr(s[i]);
    EnumerableText(xs, format, dates);
  }

  /** An array or other enumerable that is not a dictionary serializes by
      the enumerable rule. */
  lemma SequenceIsArray(isArray: bool, xs: seq<RuntimeValue>, format: DateTimeFormat, dates: DateRenderers)
    requires NoneThrows(xs)
    ensures SerializeObject(Sequence(isArray, xs), format, dates)
      == Success(Some("[" + Join(",", DropLeadingEmpty(Fragments(xs, format, dates))) + "]"))
  {
    EnumerableText(xs, format, dates);
    SequenceUsesEnumerable(isArray, xs, format, dates);
  }

  /** A `DictionaryEntry` serializes as the one-member object
      `{"key":text}`; a null key makes `Hashtable.Add` throw. */
  lemma DictionaryEntryIsOneMember(key: Option<string>, v: RuntimeValue, format: DateTimeFormat, dates: DateRenderers)
    ensures key.None? ==> SerializeObject(DictionaryEntry(key, v), format, dates) == Failure(ArgumentNullException)
    ensures key.Some? && !Throws(v) ==>
      SerializeObject(DictionaryEntry(key, v), format, dates)
        == Success(Some("{" + MemberText(key.value, SerializeObject(v, format, dates).value) + "}"))
  {
    if key.Some? && !Throws(v) {
      DictionaryText([KeyValue(key.value, v)], format, dates);
    }
  }

  /** The members a class serializes to: for each readable getter, in
      method order, its key and its value's text. */
  function ClassMemberTexts(readable: seq<Member>, fields: Fields, format: DateTimeFormat, dates: DateRenderers): (r: seq<string>)
    requires ValidKeys(readable, fields)
    requires forall j :: 0 <= j < |readable| ==> !Throws(readable[j].result)
    ensures |r| == |readable|
  {
    seq(|readable|, j requires 0 <= j < |readable| =>
      MemberText(JsonKey(readable[j].info.name, fields).value, SerializeObject(readable[j].result, format, dates).value))
  }

  /** A class that serializes without an exception becomes an object with
      one member per readable getter, keyed by the getter's JSON key; a
      class with no readable getter becomes "{}". */
  lemma ClassIsObject(ms: seq<Member>, fields: Fields, format: DateTimeFormat, dates: DateRenderers)
    requires !Throws(Instance(true, ms, fields))
    ensures ValidKeys(Readable(ms), fields)
    ensures forall j :: 0 <= j < |Readable(ms)| ==> !Throws(Readable(ms)[j].result)
    ensures SerializeObject(Instance(true, ms, fields), format, dates)
      == Success(Some("{" + Join(",", ClassMemberTexts(Readable(ms), fields, format, dates)) + "}"))
    ensures Readable(ms) == [] ==> SerializeObject(Instance(true, ms, fields), format, dates) == Success(Some("{}"))
  {
    ReadableDoNotThrow(ms, fields);
    var table := BuildTable(ms, fields).value;
    assert NoValueThrows(table);
    DictionaryText(table, format, dates);
    assert MemberTexts(table, format, dates) == ClassMemberTexts(Readable(ms), fields, format, dates);
    ClassUsesSerializeClass(ms, fields, format, dates);
  }

  lemma ClassUsesSerializeClass(ms: seq<Member>, fields: Fields, format: DateTimeFormat, dates: DateRenderers)
    ensures SerializeObject(Instance(true, ms, fields), format, dates) == SerializeClass(Instance(true, ms, fields), format, dates)
  {
    var o := Instance(true, ms, fields);
    assert !IsDictionary(o) && !IsEnumerable(o) && IsClass(o);
  }

  /** A class that serializes without an exception has valid keys and no
      readable getter whose value throws. */
  lemma ReadableDoNotThrow(ms: seq<Member>, fields: Fields)
    requires !Throws(Instance(true, ms, fields))
    ensures ValidKeys(Readable(ms), fields)
    ensures forall j :: 0 <= j < |Readable(ms)| ==> !Throws(Readable(ms)[j].result)
  {
    ReadableMembers(ms);
    forall j | 0 <= j < |Readable(ms)|
      ensures !Throws(Readable(ms)[j].result)
    {
      var m := Readable(ms)[j];
      assert m in ms;
      var i :| 0 <= i < |ms| && ms[i] == m;
      assert IsReadable(ms[i].info);
    }
  }

  /** Some entry of the table is stored under `k`. */
  predicate TableHasKey(table: seq<KeyValue>, k: string) {
    exists j :: 0 <= j < |table| && table[j].key == k
  }

  /** Some readable getter of the class resolves to the key `k`. */
  predicate GetterHasKey(ms: seq<Member>, fields: Fields, k: string) {
    exists i :: 0 <= i < |ms| && IsReadable(ms[i].info) && JsonKey(ms[i].info.name, fields) == Some(k)
  }

  /** The keys of the object a class becomes are exactly the JSON keys of
      its readable getters, each once; nothing else depends on the order in
      which the `Hashtable` is enumerated. */
  lemma ClassKeys(ms: seq<Member>, fields: Fields)
    requires ValidKeys(Readable(ms), fields)
    ensures BuildTable(ms, fields).Success?
    ensures var table := BuildTable(ms, fields).value;
      && (forall i, j :: 0 <= i < j < |table| ==> table[i].key != table[j].key)
      && forall k :: TableHasKey(table, k) <==> GetterHasKey(ms, fields, k)
  {
    var table := BuildTable(ms, fields).value;
    forall k
      ensures TableHasKey(table, k) <==> GetterHasKey(ms, fields, k)
    {
      if TableHasKey(table, k) {
        TableKeyFromGetter(ms, fields, k);
      }
      if GetterHasKey(ms, fields, k) {
        GetterKeyInTable(ms, fields, k);
      }
    }
  }

  lemma TableKeyFromGetter(ms: seq<Member>, fields: Fields, k: string)
    requires ValidKeys(Readable(ms), fields)
    requires TableHasKey(BuildTable(ms, fields).value, k)
    ensures GetterHasKey(ms, fields, k)
  {
    ReadableMembers(ms);
    var table := BuildTable(ms, fields).value;
    var j :| 0 <= j < |table| && table[j].key == k;
    var i :| 0 <= i < |ms| && ms[i] == Readable(ms)[j];
    assert IsReadable(ms[i].info);
  }

  lemma GetterKeyInTable(ms: seq<Member>, fields: Fields, k: string)
    requires ValidKeys(Readable(ms), fields)
    requires GetterHasKey(ms, fields, k)
    ensures TableHasKey(BuildTable(ms, fields).value, k)
  {
    ReadableMembers(ms);
    var table := BuildTable(ms, fields).value;
    var readable := Readable(ms);
    var i :| 0 <= i < |ms| && IsReadable(ms[i].info) && JsonKey(ms[i].info.name, fields) == Some(k);
    assert ms[i] in readable;
    var j :| 0 <= j < |readable| && readable[j] == ms[i];
    assert table[j].key == k;
  }

  /** The getter `get_Id` of a class with the field `JSON_Name_Id = "id"`
      is written under the key "id". */
  lemma OverrideRenamesKey(format: DateTimeFormat, dates: DateRenderers)
    ensures SerializeObject(
      Instance(true, [Member(MethodInfo("get_Id", false, OtherType, OtherType), Integer(Int32, 7))],
        map["JSON_Name_Id" := Some("id")]), format, dates)
      == Success(Some("{\"id\":7}"))
  {
    var ms := [Member(MethodInfo("get_Id", false, OtherType, OtherType), Integer(Int32, 7))];
    var fields := map["JSON_Name_Id" := Some("id")];
    RenamedIdFacts(ms, fields);
    ClassIsObject(ms, fields, format, dates);
    RenamedIdText(ms, fields, format, dates);
  }

  lemma RenamedIdFacts(ms: seq<Member>, fields: Fields)
    requires ms == [Member(MethodInfo("get_Id", false, OtherType, OtherType), Integer(Int32, 7))]
    requires fields == map["JSON_Name_Id" := Some("id")]
    ensures Readable(ms) == ms
    ensures JsonKey("get_Id", fields) == Some("id")
    ensures !Throws(Instance(true, ms, fields))
  {
    assert "get_Id"[..4] == "get_" && "get_Id"[4..] == "Id";
    assert IsReadable(ms[0].info);
    assert ms[..0] == [];
    assert "JSON_Name_" + "Id" == "JSON_Name_Id";
  }

  lemma RenamedIdText(ms: seq<Member>, fields: Fields, format: DateTimeFormat, dates: DateRenderers)
    requires ms == [Member(MethodInfo("get_Id", false, OtherType, OtherType), Integer(Int32, 7))]
    requires Readable(ms) == ms
    requires JsonKey("get_Id", fields) == Some("id")
    requires ValidKeys(ms, fields)
    ensures "{" + Join(",", ClassMemberTexts(ms, fields, format, dates)) + "}" == "{\"id\":7}"
  {
    assert DecimalText.IntegerText(7) == "7";
    assert SerializeObject(Integer(Int32, 7), format, dates) == Success(Some("7"));
    assert ClassMemberTexts(ms, fields, format, dates) == [MemberText("id", Some("7"))];
    assert MemberText("id", Some("7")) == "\"id\":7";
  }

  /** Two readable getters whose keys agree make the class rule raise:
      `ArgumentException` for a key two getters share, or, only when some
      key is null, `ArgumentNullException`. */
  lemma SharedKeyThrows(ms: seq<Member>, fields: Fields, i: int, j: int, format: DateTimeFormat, dates: DateRenderers)
    requires 0 <= i < j < |ms| && IsReadable(ms[i].info) && IsReadable(ms[j].info)
    requires JsonKey(ms[i].info.name, fields) == JsonKey(ms[j].info.name, fields)
    ensures var r := SerializeObject(Instance(true, ms, fields), format, dates);
      && r.Failure?
      && (r.error == ArgumentNullException || r.error.ArgumentException?)
      && (r.error == ArgumentNullException ==> !KeysResolve(Readable(ms), fields))
      && (r.error.ArgumentException? ==> RepeatedKey(Readable(ms), fields, r.error.duplicateKey))
  {
    SharedKeyInvalidates(ms, fields, i, j);
    ClassUsesSerializeClass(ms, fields, format, dates);
  }

  /** An override that renames `get_Name` to the key of `get_Id` makes
      `Hashtable.Add` reject the second key with `ArgumentException`. */
  lemma OverrideCollisionThrows(format: DateTimeFormat, dates: DateRenderers)
    ensures SerializeObject(
      Instance(true, [Member(MethodInfo("get_Id", false, OtherType, OtherType), Integer(Int32, 7)),
                      Member(MethodInfo("get_Name", false, OtherType, OtherType), Str("x"))],
        map["JSON_Name_Name" := Some("Id")]), format, dates) == Failure(ArgumentException("Id"))
  {
    var ms := [Member(MethodInfo("get_Id", false, OtherType, OtherType), Integer(Int32, 7)),
               Member(MethodInfo("get_Name", false, OtherType, OtherType), Str("x"))];
    var fields := map["JSON_Name_Name" := Some("Id")];
    CollidingTable(ms, fields);
    ClassUsesSerializeClass(ms, fields, format, dates);
  }

  lemma CollidingTable(ms: seq<Member>, fields: Fields)
    requires ms == [Member(MethodInfo("get_Id", false, OtherType, OtherType), Integer(Int32, 7)),
                    Member(MethodInfo("get_Name", false, OtherType, OtherType), Str("x"))]
    requires fields == map["JSON_Name_Name" := Some("Id")]
    ensures BuildTable(ms, fields) == Failure(ArgumentException("Id"))
  {
    assert "get_Name"[..4] == "get_" && "get_Name"[4..] == "Name";
    assert "JSON_Name_" + "Name" == "JSON_Name_Name";
    assert ms[..1] == [ms[0]];
    UnrenamedIdTable(ms[..1], fields);
  }

  lemma UnrenamedIdTable(ms: seq<Member>, fields: Fields)
    requires ms == [Member(MethodInfo("get_Id", false, OtherType, OtherType), Integer(Int32, 7))]
    requires fields == map["JSON_Name_Name" := Some("Id")]
    ensures BuildTable(ms, fields) == Success([KeyValue("Id", Integer(Int32, 7))])
  {
    assert "get_Id"[..4] == "get_" && "get_Id"[4..] == "Id";
    assert "JSON_Name_" + "Id" != "JSON_Name_Name";
    assert ms[..0] == [];
  }
}
