# Variable-text form fields (Apache PDFBox `PDVariableText`)

This project models `PDVariableText`, PDFBox's base class for interactive
form fields whose appearance is built from variable text. It covers the
entries of section 12.7.3.3 of ISO 32000-1 (Table 222: `DA`, `Q`, `DS`, `RV`)
and the text-field flags of section 12.7.4.3 (Table 228). The model has
three parts:

- **Field flags.** Seven named booleans are packed into the Java `int`
  stored under `Ff`: multiline, password, file select, do-not-spell-check,
  do-not-scroll, comb and rich text. The standard numbers the bits from 1,
  so its bit 13 is position 12 here (`1 << 12`). An absent `Ff`, or one that
  is not a number, reads as 0. The flags are read from the node's own
  dictionary only.
- **Inheritable entries.** `DA`, `Q` and `DV` are read from the nearest
  node, from this field up through its parents, whose dictionary *has* the
  key, whatever the value is (a `Q` of 0 included). If no node has the key,
  `Q` reads as 0 and `DA` and `DV` read as absent. An entry of the wrong
  kind is a cast failure at the node where it is found.
- **Local entries.** Every setter writes only the field's own dictionary,
  and a null argument removes the key. If `RV` is absent or not a string,
  the rich text value reads as `""`. An absent `DS` makes the read fail.
  `setDefaultValue` always fails.

Modules:

- `Wrappers`: `Option`, `Result`, `Outcome`.
- `JavaInt`: Java `int` and the narrowing `intValue()`.
- `Cos`: the dictionary as a `map<Key, Value>`, with
  `Value = Int | Str | Other`, the fault kinds, and `COSDictionary.getInt`.
- `FieldFlags`: the flag positions and masks, bit reading, and `setFlag`'s
  arithmetic.
- `VariableText`: the class `FieldNode`. It has a mutable dictionary, a
  constant parent handle, and a ghost depth and ancestor set. The ghost
  data makes the parent walk terminate and gives the inherited reads their
  frame.
- `Scenarios`: small client programs whose outcomes are stated in their
  postconditions.

The seven getter/setter pairs (`isMultiline`/`setMultiline` … `isRichText`/`setRichText`)
are one predicate `IsSet(f)` and one method `SetFlag(f, b)` over the
enumeration `Flag`. The Java bit operations `flags | mask` and
`flags & ~mask` are written as adding or subtracting the mask when the bit
differs. Bits are read by repeated floor division by 2, so negative flag
words have their two's-complement bits. The model proves that the result is
again a Java `int` and that it agrees with the input on every bit but one.
Java's `null` arguments are `None` and its exceptions are `Fault` values:

- `ClassCastException` is `TypeMismatch`.
- The null dereference in `getDefaultStyleString` is `MissingValue`.
- The `IllegalArgumentException` of `setDefaultValue` is `Unsupported`.

## Model

| member | source | states |
|---|---|---|
| `JavaInt.IntValue` | pdfbox/src/main/java/org/apache/pdfbox/pdmodel/interactive/form/PDVariableText.java:307 | `intValue()` yields a Java `int` congruent to the stored integer modulo 2^32, and equal to it when it is already in range |
| `Cos.GetInt` | pdfbox/src/main/java/org/apache/pdfbox/pdmodel/interactive/form/PDVariableText.java:90-93 | for a number entry the result is its `intValue()`: the Java `int` congruent to it modulo 2^32, equal to it when it is in range; the default (0) when the entry is absent or not a number |
| `FieldFlags.MasksAreDistinctBits` | pdfbox/src/main/java/org/apache/pdfbox/pdmodel/interactive/form/PDVariableText.java:36-42 | each mask is the single bit `2^position`, every position is below the sign bit, and different flags have different positions |
| `FieldFlags.AddKeepsOtherBits` | pdfbox/src/main/java/org/apache/pdfbox/pdmodel/interactive/form/PDVariableText.java:100-103 | or-ing a clear bit into a word (adding its mask) changes no other bit |
| `FieldFlags.AddBitInRange` | pdfbox/src/main/java/org/apache/pdfbox/pdmodel/interactive/form/PDVariableText.java:100-103 | setting a clear bit below the sign bit keeps a Java `int` in range |
| `FieldFlags.ClearBitInRange` | pdfbox/src/main/java/org/apache/pdfbox/pdmodel/interactive/form/PDVariableText.java:100-103 | clearing a set bit below the sign bit keeps a Java `int` in range |
| `FieldFlags.Set` | pdfbox/src/main/java/org/apache/pdfbox/pdmodel/interactive/form/PDVariableText.java:100-103 | setting a flag to `b` gives a Java `int` whose flag bit reads `b` and whose every other bit (the reserved bits and the sign included) equals the input's |
| `FieldFlags.BitShift` | pdfbox/src/main/java/org/apache/pdfbox/pdmodel/interactive/form/PDVariableText.java:92 | adding any multiple of 2^j to an integer leaves each of its bits below j unchanged |
| `FieldFlags.LowBitsAgree` | pdfbox/src/main/java/org/apache/pdfbox/pdmodel/interactive/form/PDVariableText.java:92 | two integers congruent modulo 2^32 have the same low 32 bits, so a long and its `intValue()` give the same flag tests |
| `FieldFlags.Test` | pdfbox/src/main/java/org/apache/pdfbox/pdmodel/interactive/form/PDVariableText.java:90-93 | `getFlag`'s test `(ff & mask) == mask`: a flags word of 0 has no flag set, and the mask alone has its own flag set |
| `FieldFlags.SetKeepsOtherFlags` | pdfbox/src/main/java/org/apache/pdfbox/pdmodel/interactive/form/PDVariableText.java:90-211 | setting or clearing one named flag leaves the reading of every other named flag unchanged |
| `VariableText.FieldNode.FlagsWord` | pdfbox/src/main/java/org/apache/pdfbox/pdmodel/interactive/form/PDVariableText.java:92 | the flags word read from the node's own dictionary: 0 when `Ff` is absent or not a number, otherwise the number's low 32 bits (its `intValue()`) |
| `VariableText.FieldNode.IsSet` | pdfbox/src/main/java/org/apache/pdfbox/pdmodel/interactive/form/PDVariableText.java:90-201 | `isMultiline()` … `isRichText()`: false, never a fault, when `Ff` is absent or not a number; for any `Ff` number, in the `int` range or not, the flag's bit of that number; true when the flags word is exactly the mask; `SetFlag` and `FieldFlags.Set` give its value after a write |
| `VariableText.FieldNode.InheritableAttribute` | pdfbox/src/main/java/org/apache/pdfbox/pdmodel/interactive/form/PDVariableText.java:225 | the inherited read: the local entry when there is one, and any value it returns is the entry of some node from this one up to the root; `InheritedAbsentIffUndefined` and `InheritedFromNearest` pin it to the nearest such node |
| `VariableText.FieldNode.constructor` | pdfbox/src/main/java/org/apache/pdfbox/pdmodel/interactive/form/PDVariableText.java:82-85 | wraps a dictionary with a parent handle; the resulting chain is well-founded |
| `VariableText.FieldNode.AncestorsAreShallower` | pdfbox/src/main/java/org/apache/pdfbox/pdmodel/interactive/form/PDVariableText.java:233-234 | a field is never its own ancestor, so a write to its own dictionary cannot change what any ancestor holds |
| `VariableText.FieldNode.InheritedAbsentIffUndefined` | pdfbox/src/main/java/org/apache/pdfbox/pdmodel/interactive/form/PDVariableText.java:216 | an inherited entry is absent exactly when no node from the field up to the root has the key (both directions) |
| `VariableText.FieldNode.InheritedFromNearest` | pdfbox/src/main/java/org/apache/pdfbox/pdmodel/interactive/form/PDVariableText.java:290 | an inherited entry is the value of the nearest node that has the key, whatever that value is |
| `VariableText.FieldNode.SetFlag` | pdfbox/src/main/java/org/apache/pdfbox/pdmodel/interactive/form/PDVariableText.java:100-211 | `setX(b)` stores `Ff` with only X's bit changed: afterwards `isX()` is `b`, every other named flag reads as before, every other bit is unchanged, and no other entry changes |
| `VariableText.FieldNode.GetDefaultAppearance` | pdfbox/src/main/java/org/apache/pdfbox/pdmodel/interactive/form/PDVariableText.java:223-228 | the only fault is a cast failure; a local `DA` decides the result on its own (its string, or a cast failure); a returned string is the `DA` of some node on the chain |
| `VariableText.FieldNode.DefaultAppearanceUndefined` | pdfbox/src/main/java/org/apache/pdfbox/pdmodel/interactive/form/PDVariableText.java:223-228 | with no `DA` anywhere on the chain, `getDefaultAppearance()` is absent, not a fault |
| `VariableText.FieldNode.DefaultAppearanceFromNearest` | pdfbox/src/main/java/org/apache/pdfbox/pdmodel/interactive/form/PDVariableText.java:223-228 | `getDefaultAppearance()` is the nearest `DA` string; if that entry is not a string, the read is a cast failure and no further ancestor is tried |
| `VariableText.FieldNode.SetDefaultAppearance` | pdfbox/src/main/java/org/apache/pdfbox/pdmodel/interactive/form/PDVariableText.java:240-252 | a string sets only the local `DA` and reads back; null removes the local `DA` and uncovers the parent's resolved value as it was; no ancestor's dictionary changes |
| `VariableText.FieldNode.GetDefaultStyleString` | pdfbox/src/main/java/org/apache/pdfbox/pdmodel/interactive/form/PDVariableText.java:262-266 | succeeds exactly when the local `DS` is a string, and returns that string; fails with a missing value exactly when `DS` is absent, and with a cast failure otherwise |
| `VariableText.FieldNode.SetDefaultStyleString` | pdfbox/src/main/java/org/apache/pdfbox/pdmodel/interactive/form/PDVariableText.java:275-285 | a string sets the local `DS` and `getDefaultStyleString()` returns it; null removes `DS` and the read then fails with a missing value |
| `VariableText.FieldNode.GetQ` | pdfbox/src/main/java/org/apache/pdfbox/pdmodel/interactive/form/PDVariableText.java:299-310 | the only fault is a cast failure; a local `Q` decides the result on its own (its `intValue()`, or a cast failure); a non-zero result is the `intValue()` of the `Q` number of some node on the chain |
| `VariableText.FieldNode.QUndefined` | pdfbox/src/main/java/org/apache/pdfbox/pdmodel/interactive/form/PDVariableText.java:299-310 | with no `Q` anywhere on the chain, `getQ()` is 0 |
| `VariableText.FieldNode.QFromNearest` | pdfbox/src/main/java/org/apache/pdfbox/pdmodel/interactive/form/PDVariableText.java:299-310 | `getQ()` is the `intValue()` of the nearest `Q` number, 0 included; a `Q` of another kind is a cast failure |
| `VariableText.FieldNode.SetQ` | pdfbox/src/main/java/org/apache/pdfbox/pdmodel/interactive/form/PDVariableText.java:317-320 | any `int` is stored locally without a range check and `getQ()` returns it; the parent's `getQ()` and every ancestor's dictionary are unchanged |
| `VariableText.FieldNode.GetDefaultValue` | pdfbox/src/main/java/org/apache/pdfbox/pdmodel/interactive/form/PDVariableText.java:323-326 | a local `DV` is returned as it is; any value returned is the `DV` entry of some node on the chain |
| `VariableText.FieldNode.DefaultValueUndefined` | pdfbox/src/main/java/org/apache/pdfbox/pdmodel/interactive/form/PDVariableText.java:323-326 | with no `DV` anywhere on the chain, `getDefaultValue()` is absent |
| `VariableText.FieldNode.DefaultValueFromNearest` | pdfbox/src/main/java/org/apache/pdfbox/pdmodel/interactive/form/PDVariableText.java:323-326 | `getDefaultValue()` is the nearest `DV` object, of any kind |
| `VariableText.FieldNode.SetDefaultValue` | pdfbox/src/main/java/org/apache/pdfbox/pdmodel/interactive/form/PDVariableText.java:333-337 | fails with "unsupported" for every argument, null included, and changes nothing |
| `VariableText.FieldNode.GetRichTextValue` | pdfbox/src/main/java/org/apache/pdfbox/pdmodel/interactive/form/PDVariableText.java:344-354 | a local string `RV` is returned; a non-empty result is always the local `RV` string, so an absent or non-string `RV` reads as `""` |
| `VariableText.FieldNode.SetRichTextValue` | pdfbox/src/main/java/org/apache/pdfbox/pdmodel/interactive/form/PDVariableText.java:369-380 | a string sets the local `RV` and `getRichTextValue()` returns it; null removes `RV` and the read is then `""` |
| `Scenarios.JustificationInheritance` | pdfbox/src/main/java/org/apache/pdfbox/pdmodel/interactive/form/PDVariableText.java:299-320 | a child inherits its root's `Q` of 2, overrides it with 1 while the root keeps 2, and inherits 2 again once its own `Q` entry is removed |
| `Scenarios.ZeroJustificationShadows` | pdfbox/src/main/java/org/apache/pdfbox/pdmodel/interactive/form/PDVariableText.java:292 | a parent's `Q` of 0 shadows a grandparent's 2 |
| `Scenarios.CombThenMultiline` | pdfbox/src/main/java/org/apache/pdfbox/pdmodel/interactive/form/PDVariableText.java:180-193 | from no flags, `setComb(true)` stores exactly `1 << 24`, then `setMultiline(true)` stores `(1 << 24)` or-ed with `(1 << 12)`, and comb stays set |
| `Scenarios.DefaultAppearanceOverride` | pdfbox/src/main/java/org/apache/pdfbox/pdmodel/interactive/form/PDVariableText.java:233-236 | a local `DA` hides the parent's; setting null makes the parent's visible again |
| `Scenarios.LocalDefaults` | pdfbox/src/main/java/org/apache/pdfbox/pdmodel/interactive/form/PDVariableText.java:344-354 | without a string `RV` the rich text value is `""`, while a missing `DS` makes its read fail |
| `Scenarios.DefaultStyleOfOtherKind` | pdfbox/src/main/java/org/apache/pdfbox/pdmodel/interactive/form/PDVariableText.java:262-266 | a `DS` entry that is not a string is a cast failure, distinct from a missing one |

## Left out

- Parsing and serialising COS objects are not modelled. A dictionary is a map from key to value, already dereferenced: indirect objects and `COSNull` are not modelled.
- `COSString`'s byte encoding and decoding are not modelled, including its byte-order-mark handling. Setters store a string as `Str(s)`, and the getters read `s` back unchanged.
- Real-valued numbers (`COSFloat`) are not modelled, because floating point is out of scope. `Value` has integers, strings and one "other" kind, so a real `Q` or `Ff` is not modelled.
- `COSDictionary` is not part of this model. Its `getInt`, `setFlag`, `setInt`, `setItem` and `removeItem` are modelled as map reads, updates and removals (`GetInt`, `FieldFlags.Set`).
- `PDField.getInheritableAttribute` is not part of this model. It is modelled as "nearest node on the parent chain that has the key, else absent". Any fallback to the interactive form's own dictionary at the root is left out with `PDAcroForm`.
- `PDAcroForm`, the constructor that takes only the form (lines 70-73), and the field-tree wiring beyond a parent handle are not modelled. A parent is modelled as another `FieldNode`, holding a dictionary and its own parent.
- The cached field `defaultAppearance` (lines 48, 226, 244, 249) is not modelled. It only mirrors the `DA` entry, nothing reads it independently, and `GetDefaultAppearance` is a pure function without it.
- Appearance-stream generation and `setNeedAppearances` (lines 359-363) are not modelled, because the rich-text setter does not trigger them.
- A rich text value held as a stream (lines 352, 371) is not modelled separately. It is one of the "not a string" kinds that read as `""`.
- Threading is not modelled; the code is single-threaded.
- Removing a local `Q` has no operation in this class (`setQ` takes an `int`). `Scenarios.JustificationInheritance` removes the entry from the field's dictionary directly.

Two points where the text around the code and the code differ; the model follows the code:

- ISO 32000-1 makes `Ff` inheritable, but the flag accessors read and write
  only the field's own dictionary.
- The comment on `setRichTextValue` says a null argument removes the default
  style string. The code removes `RV`.
