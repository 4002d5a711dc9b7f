# Json.NetMF serializer core, modelled in Dafny

Json.NetMF is a JSON library for the .NET Micro Framework. This project
models two parts of it:

- `JsonSerializer`:
  - `SerializeObject` turns an object into JSON text. It returns the text
    `null` for a null reference, then switches on the type name: Boolean, String, Char,
    Guid, the numeric types and DateTime. Then it tests, in order: dictionary, enumerable,
    `DictionaryEntry`, class. Anything else gives a null reference.
  - `SerializeIEnumerable` and `SerializeIDictionary` wrap their elements in
    brackets and braces. They place commas with a length probe: a comma is
    appended when the text so far is longer than one character.
  - `Deserialize(json, targetType)` and `loadJsonToType` bind a decoded
    `Hashtable` to a new object through its `set_` methods.
- `StringExtensions`: `StartsWith`, `EndsWith` and `Contains`, all three
  defined through an ordinal `IndexOf`.

Reflection is replaced by a closed datatype `Values.RuntimeValue`:

- A class instance lists its methods. Each method comes with the value it
  returns when invoked.
- An instance also carries its `JSON_Name_` fields.
- A type to bind to is a `Values.TypeDescriptor`.

Exceptions are results. `Result<Option<string>, Exception>` reads as
follows:

- `Success(Some(t))` is the text `t`.
- `Success(None)` is the null reference returned for an unsupported value.
- `Failure(e)` means `e` is raised. The exceptions are:
  - `ArgumentNullException` and `ArgumentException` from `Hashtable.Add`;
  - `ArgumentNullException` from the `Hashtable` indexer when a setter's key
    is null;
  - `NullReferenceException` when the target has no parameterless
    constructor.

Modules:

| module | file |
|---|---|
| `Wrappers` | `wrappers.dfy` |
| `StringExtensions` | `string_extensions.dfy` |
| `TextJoin` | `text_join.dfy` |
| `DecimalText` | `decimal_text.dfy` |
| `Values` | `values.dfy` |
| `JsonSerializer` | `json_serializer.dfy` |
| `Binder` | `binder.dfy` |

For a value it has no rule for, `SerializeObject` returns a null reference
(`JsonSerializer.cs:222`). Its doc comment says the same: "or null when the
value type is not supported" (`JsonSerializer.cs:103`). It does not return
the text `null`. A nested null reference appends nothing to the enclosing
text:

- `UnsupportedFirstItemVanishes` shows an unsupported first item disappears.
- `UnsupportedLaterItemLeavesComma` shows a later one leaves `[1,]`.

## Model

| member | source | states |
|---|---|---|
| StringExtensions.IndexOf | Json.NetMF/StringExtensions.cs:13-23 | the ordinal index the three tests use: -1 exactly when `v` occurs nowhere; otherwise an occurrence with no earlier one |
| StringExtensions.StartsWith | Json.NetMF/StringExtensions.cs:16-19 | true exactly when `v` is a prefix of `s`, because the first occurrence is at 0 iff `v` is a prefix |
| StringExtensions.Contains | Json.NetMF/StringExtensions.cs:21-24 | true exactly when `v` occurs somewhere in `s` |
| StringExtensions.EndsWith | Json.NetMF/StringExtensions.cs:11-14 | as written: true exactly when `v` is one element longer than `s`, or when `v` is a suffix that occurs nowhere earlier (lengths count `char`s of the model, see Left out) |
| StringExtensions.HasSuffix | Json.NetMF/StringExtensions.cs:11-14 | the intended suffix test: true exactly when `v` is a suffix of `s` |
| StringExtensions.EndsWithMissesRepeatedSuffix | Json.NetMF/StringExtensions.cs:11-14 | `EndsWith("abab", "ab")` is false although "ab" is a suffix |
| StringExtensions.EndsWithAcceptsOverlongNeedle | Json.NetMF/StringExtensions.cs:11-14 | `EndsWith("a", "ab")` is true although "ab" is longer than "a" |
| StringExtensions.EndsWithEmptyNeedle | Json.NetMF/StringExtensions.cs:11-14 | `EndsWith(s, "")` holds only for the empty `s`; the empty text is a suffix of every `s` |
| TextJoin.ProbeJoinIsJoin | Json.NetMF/JsonSerializer.cs:232-245 | the length-probe loop equals the opening bracket plus the pieces, leading empty pieces dropped, joined with exactly one comma between neighbours |
| TextJoin.ProbeJoinNonEmpty | Json.NetMF/JsonSerializer.cs:236-241 | when no piece is empty, the loop puts exactly one comma between neighbours |
| TextJoin.ProbeJoinEmptyHead | Json.NetMF/JsonSerializer.cs:236-241 | an empty first piece adds nothing and also removes the comma before the second piece |
| TextJoin.SplitJoin | Json.NetMF/JsonSerializer.cs:257-267 | a property of `Join`, the comma placement of the dictionary loop: joining n comma-free parts puts exactly the n-1 cuts back that `Split` finds, so the parts are recovered (member texts of nested arrays or objects contain commas and are outside this lemma) |
| DecimalText.IntegerText | Json.NetMF/JsonSerializer.cs:128-137 | `ToString()` of an integral value is decimal digits, with a minus sign exactly for negative values, and no leading zero: it starts with '0' only for zero, and a negative value's first digit is not '0' |
| DecimalText.IntegerTextIsCanonical | Json.NetMF/JsonSerializer.cs:128-137 | every integer's text is canonical: an optional minus sign, then digits with no leading zero except the lone "0", and never "-0" |
| DecimalText.CanonicalIsIntegerText | Json.NetMF/JsonSerializer.cs:128-137 | every canonical text is the text of the integer it reads as, so together with the round trip each integer has exactly one text, e.g. 7 is written `7` and never `07` |
| DecimalText.IntegerTextRoundTrip | Json.NetMF/JsonSerializer.cs:128-137 | reading an integer's text back gives the same integer |
| Values.Elements | Json.NetMF/JsonSerializer.cs:161-165 | `foreach` over a string yields its characters in order; over a dictionary, one `DictionaryEntry` per entry with that entry's key and value; over another collection, its items |
| Values.JsonKey | Json.NetMF/JsonSerializer.cs:206-213 | with no `JSON_Name_` field the key is the property name; the key is null exactly when the renaming field holds null; a key other than the property name is the renaming field's value; a non-null renaming field is the key |
| Values.KeyOfProperty | Json.NetMF/JsonSerializer.cs:206-213 | two accessors with the same property name have the same key, whatever their prefix |
| Values.AccessorsShareKey | Json.NetMF/JsonSerializer.cs:69-76 | the binder's `set_P` key and the serializer's `get_P` key agree for every `P` and every set of fields |
| Values.ReadableMembers | Json.NetMF/JsonSerializer.cs:181-204 | the getters the class rule reads are exactly the methods that pass the `get_`, abstract, delegate and `MethodInfo` filters |
| Values.ValidKeysSnoc | Json.NetMF/JsonSerializer.cs:216 | one more `Hashtable.Add` keeps every key valid exactly when its key is non-null and not yet present |
| JsonSerializer.SerializeObject | Json.NetMF/JsonSerializer.cs:105-223 | raises exactly when `Throws` holds; returns null exactly for a value type with no rule |
| JsonSerializer.SerializeReference | Json.NetMF/JsonSerializer.cs:155-222 | the shape tests after the type switch keep the same exception and null-return conditions |
| JsonSerializer.SerializeClass | Json.NetMF/JsonSerializer.cs:175-220 | a class raises exactly when `Throws` holds, and otherwise always yields text (never null) |
| JsonSerializer.SerializeIEnumerable | Json.NetMF/JsonSerializer.cs:230-246 | raises exactly when some item raises |
| JsonSerializer.SerializeIDictionary | Json.NetMF/JsonSerializer.cs:253-271 | raises exactly when some entry's value raises |
| JsonSerializer.EncodeItems | Json.NetMF/JsonSerializer.cs:234-242 | one text per item; fails exactly when an item raises |
| JsonSerializer.EncodeEntries | Json.NetMF/JsonSerializer.cs:257-267 | one member text per entry; fails exactly when a value raises |
| JsonSerializer.BuildTable | Json.NetMF/JsonSerializer.cs:177-218 | filling the `Hashtable` succeeds exactly when every readable getter's key is non-null and distinct, and the table then holds each getter's key and value in method order; it raises only `ArgumentNullException`, and only when some key is null, or `ArgumentException(k)`, and only when two getters share `k` |
| JsonSerializer.AddGetter | Json.NetMF/JsonSerializer.cs:216 | one `Add` succeeds exactly when the key is non-null and new; a null key raises `ArgumentNullException`; a present key raises `ArgumentException` naming a key that two getters share |
| JsonSerializer.TabulatesSnoc | Json.NetMF/JsonSerializer.cs:216 | `Add` finds its key present exactly when an earlier getter resolved to that key |
| JsonSerializer.EnumerableText | Json.NetMF/JsonSerializer.cs:230-246 | an enumerable becomes "[", the item texts after the leading empty ones joined by commas, then "]" |
| JsonSerializer.EnumerableOfNonEmptyText | Json.NetMF/JsonSerializer.cs:230-246 | with no empty item texts, the items are joined by commas in order; no items give "[]" |
| JsonSerializer.UnsupportedFirstItemVanishes | Json.NetMF/JsonSerializer.cs:236-241 | an unsupported first item changes nothing: the array equals the array without it |
| JsonSerializer.UnsupportedLaterItemLeavesComma | Json.NetMF/JsonSerializer.cs:236-241 | `[1, <struct>]` becomes the text `[1,]` |
| JsonSerializer.DictionaryText | Json.NetMF/JsonSerializer.cs:253-271 | a dictionary becomes "{", its `"key":text` members joined by commas, then "}"; no entries give "{}" |
| JsonSerializer.NullAndBoolean | Json.NetMF/JsonSerializer.cs:107-117 | null becomes `null`; Booleans become `true` and `false` |
| JsonSerializer.TextIsQuotedVerbatim | Json.NetMF/JsonSerializer.cs:118-123 | strings, chars and Guids are their text between two quotes, with nothing escaped |
| JsonSerializer.IntegerIsDecimal | Json.NetMF/JsonSerializer.cs:124-138 | an integral value's text reads back as the same integer |
| JsonSerializer.DateTimeFollowsFormat | Json.NetMF/JsonSerializer.cs:139-152 | Ajax dates use the ASP.NET Ajax renderer; ISO8601 and Default use the ISO 8601 renderer; the result is quoted |
| JsonSerializer.DictionaryIsObject | Json.NetMF/JsonSerializer.cs:155-159 | a dictionary, although enumerable, becomes an object and not the "[...]" the enumerable rule would give |
| JsonSerializer.StringIsNotEnumerated | Json.NetMF/JsonSerializer.cs:112-123 | a string, although enumerable, becomes quoted text and not an array of characters |
| JsonSerializer.SequenceIsArray | Json.NetMF/JsonSerializer.cs:161-165 | an array or other non-dictionary enumerable follows the enumerable rule |
| JsonSerializer.DictionaryEntryIsOneMember | Json.NetMF/JsonSerializer.cs:167-173 | a `DictionaryEntry` becomes the one-member object `{"key":text}`; a null key raises `ArgumentNullException` |
| JsonSerializer.ClassIsObject | Json.NetMF/JsonSerializer.cs:175-220 | a class that does not raise becomes an object with one member per readable getter; with none it becomes "{}" |
| JsonSerializer.ClassKeys | Json.NetMF/JsonSerializer.cs:206-216 | the class object's keys are distinct, and a key is present exactly when some readable getter resolves to it |
| JsonSerializer.OverrideRenamesKey | Json.NetMF/JsonSerializer.cs:206-213 | `get_Id` with `JSON_Name_Id = "id"` gives `{"id":7}` |
| JsonSerializer.SharedKeyThrows | Json.NetMF/JsonSerializer.cs:206-216 | for every class with two readable getters whose keys agree, serializing raises: `ArgumentException` for a key two getters share, or `ArgumentNullException`, and that only when some key is null |
| Values.SharedKeyInvalidates | Json.NetMF/JsonSerializer.cs:206-216 | two readable getters at different positions with the same key leave the keys invalid |
| Values.ReadableAppend | Json.NetMF/JsonSerializer.cs:181-218 | the getters read from two consecutive runs of methods are those of the first run followed by those of the second, so method order is kept |
| JsonSerializer.OverrideCollisionThrows | Json.NetMF/JsonSerializer.cs:206-216 | example: renaming `get_Name` to `Id` next to `get_Id` raises `ArgumentException("Id")` |
| Binder.Lookup | Json.NetMF/JsonSerializer.cs:78 | the `Hashtable` indexer gives null for an absent key, and otherwise the value stored under that key |
| Binder.SettersAreSetters | Json.NetMF/JsonSerializer.cs:66-69 | the methods the binder invokes are exactly the methods named `set_...` (membership both ways) |
| Binder.SettersAppend | Json.NetMF/JsonSerializer.cs:66-69 | the setters of two consecutive runs of methods are those of the first run followed by those of the second, so method order is kept |
| Binder.SettersOfOne | Json.NetMF/JsonSerializer.cs:66-69 | a single method contributes itself once when named `set_...` and nothing otherwise; with `SettersAppend`, each setter is invoked exactly once, in method order |
| Binder.AssignSetters | Json.NetMF/JsonSerializer.cs:64-82 | succeeds exactly when every setter's key is non-null; each setter then receives the table's value under its key |
| Binder.LoadJsonToType | Json.NetMF/JsonSerializer.cs:60-85 | without a parameterless constructor it raises `NullReferenceException`; otherwise it assigns every setter from the table |
| Binder.Deserialize | Json.NetMF/JsonSerializer.cs:48-58 | a decoded value that is not a `Hashtable` is returned unchanged; a `Hashtable` is bound to a new target |
| Binder.MissingKeyBindsNull | Json.NetMF/JsonSerializer.cs:78 | a setter whose key the table lacks is invoked with null |
| Binder.SetterReadsGetterValue | Json.NetMF/JsonSerializer.cs:69-78 | binding the table the class rule builds hands `set_P` the value `get_P` returned, with or without a rename |
| Binder.BindsRenamedAndMissing | Json.NetMF/JsonSerializer.cs:48-85 | binding `{"id": 7}` to `set_Id` (renamed to "id") and `set_Name` gives 7 and null |

## Left out

- `Serialize(o)`, the constructor and the `DateFormat` property only forward to the modelled members. The date format is a parameter instead.
- `Deserialize(json)` forwards to `DeserializeString` (next line), not to a modelled member.
- `DeserializeString` only forwards to `JsonParser.JsonDecode`, which is the parameter `decode` (next line).
- `JsonParser.JsonDecode` is not part of this model. `Binder.Deserialize` takes it as the function parameter `decode`.
- `DateTimeExtensions.ToIso8601` and `ToASPNetAjax` are not part of this model. They are the two functions of `JsonSerializer.DateRenderers`.
- Floating-point `ToString()` (Single, Double, Decimal) is not modelled. A floating value carries its text, and the serializer emits that text unchanged.
- Integer widths: `IntegerKind` records the type name, but the model does not enforce each type's range.
- Dispatch by simple type name: the source switches on `type.Name` (`JsonSerializer.cs:112`), so a user type named `Boolean`, `String`, `Char`, `Guid`, `DateTime`, `Float`, `Int32` or any other listed name takes that scalar branch. For `Boolean` and `DateTime` the cast then raises `InvalidCastException`; the other names write `o.ToString()`, quoted for `String`, `Char` and `Guid`. The closed `RuntimeValue` datatype has no such user types, so the model does not cover this. This includes `Float`, which no framework type is named but a user type may be.
- `StringExtensions.IndexOf`: lengths and indices count the model's `char`s (Unicode scalar values), not UTF-16 code units as .NET `string.Length` and `IndexOf` do. The two agree on text without characters outside the Basic Multilingual Plane.
- `StringExtensions.EndsWith`: its exact characterization (including the "one element longer" case) is stated in scalar values. On text with characters outside the Basic Multilingual Plane, the source's `s.Length - value.Length` counts code units and can give the other answer, e.g. for `EndsWith("a", s)` where `s` is the one character U+1F600.
- `StringExtensions.StartsWith` and `StringExtensions.Contains` give the same truth value under either count.
- Reflection:
  - Calling a getter is replaced by the value stored with the method. A getter that raises is not modelled.
  - A setter invoked with an argument of the wrong type is not modelled.
  - A `JSON_Name_` field that is not static or not a string is not modelled. The model keeps only string or null field values.
- Hashtable enumeration order is unspecified in .NET. The class table is enumerated in method order. `JsonSerializer.ClassKeys` states the keys without depending on that order.
- Dictionary keys are arbitrary objects in .NET, written with `ToString()`. The model keys dictionaries by strings.
- Cyclic object graphs make the source recurse without end. Model values are finite trees.
- `JsonSerializer.SerializeIEnumerable`: only when the call raises is stated on the function itself. The text is stated by `EnumerableText` and `EnumerableOfNonEmptyText`.
- `JsonSerializer.SerializeIDictionary`: only when the call raises is stated on the function itself. The text is stated by `DictionaryText`.
- `JsonSerializer.EncodeItems`: states length and failure only. The texts are given by `EncodeItemsFragments`.
- `JsonSerializer.EncodeEntries`: states length and failure only. The texts are given by `EncodeEntriesMemberTexts`.

## Findings

| source | as written | input that shows it | evidently intended | confidence | as-written member | corrected member |
|---|---|---|---|---|---|---|
| Json.NetMF/StringExtensions.cs:11-14 | `EndsWith` compares the FIRST occurrence of `value` with `s.Length - value.Length` | `EndsWith("abab", "ab")` is false; `EndsWith("a", "ab")` is true (IndexOf gives -1 = 1 - 2) | true exactly when `value` is a suffix of `s` | not executed | StringExtensions.EndsWith, StringExtensions.EndsWithMissesRepeatedSuffix, StringExtensions.EndsWithAcceptsOverlongNeedle | StringExtensions.HasSuffix |
