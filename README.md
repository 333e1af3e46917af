# laravel-forms field helpers, in Dafny

A model of the field-helper half of `Zurbaev\Forms\AbstractForm`, the base
class of a declarative form: a form lists its fields (name, optional type,
an ordered attribute array, an optional `value_lookup` alias, a label), its
editing values and its options, and the base class answers how each field is
classified, what id its input gets, which attributes reach the markup and in
what form, which CSS classes it has, and which value it shows.

The value of a field follows a fixed precedence: a field whose
`attributes.type` is `password` always shows the empty string; otherwise the
old input submitted under the field's own name wins; failing that, the
stored value under `value_lookup` (or the name) is shown; failing that, the
caller's default.

Modules:

- `Wrappers`: `Option`, standing for PHP `null` / a missing key.
- `Ascii`: ASCII lower/upper case, `ucfirst`, `lcfirst` (Laravel's `Str::lower`, `Str::ucfirst`).
- `PhpArray`: a PHP array with string keys as an ordered list of entries; flat lookup, `unset`, removal of a set of keys.
- `OldInput`: the test helpers' old-input store, as the class `OldValuesStorage` whose `values` table `Set`, `Forget` and `Flush` update in place, plus the `old()` helper. `Isset`/`ValueOr` state what `has`/`get` answer for given contents; `FieldValue` reads such contents.
- `AbstractForm`: the core. `OnlyExtraAttributes` is a method with the source's loop over the reserved keys, unsetting one at a time; `ExtraOf` is the function it is proved against, and `ExtraAttributes` / `FieldAttributes` are built on that function.
- `AttributeSyntax`: a reader for `key="value" key="value"` strings. It is not part of the library; it is there to prove that `extraAttributes` loses nothing (reading back its output gives the kept attributes in order).
- `ExampleForm`: the test suite's concrete form as constant data, and the suite's assertions about it as lemmas.

Three facts about the code shape the model:

- The whitelist of valid types is exactly `hidden, text, select, checkbox, file-upload, summernote` (src/AbstractForm.php:12-14).
- Password redaction is unconditional: `fieldValue` returns `""` for a password field before it looks at anything else (src/AbstractForm.php:228-230).
- `fieldValue` (src/AbstractForm.php:226-236) applies no per-field mutator to old input, although tests/FormsTest.php:78 expects one.

## Model

| member | source | states |
|---|---|---|
| `Ascii.Lower` | src/AbstractForm.php:200 | lower-casing keeps the length, maps each character to its lower-case form (A-Z to a-z, all else unchanged) and so leaves no upper-case ASCII letter |
| `Ascii.Upper` | src/AbstractForm.php:176 | upper-casing keeps the length and maps each character to its upper-case form (a-z to A-Z, all else unchanged) |
| `Ascii.LowerIdempotent` | src/AbstractForm.php:176 | lower-casing twice is lower-casing once |
| `Ascii.LowerOfUpper` | src/AbstractForm.php:176 | lower-casing forgets an earlier upper-casing |
| `Ascii.UcFirst` | src/AbstractForm.php:176 | `ucfirst` keeps the length, upper-cases the first character and leaves the rest as it was |
| `Ascii.LcFirst` | src/AbstractForm.php:176 | `lcfirst` keeps the length, lower-cases the first character and leaves the rest as it was |
| `PhpArray.Lookup` | src/AbstractForm.php:150-153 | a flat `array_get` finds a value exactly when the key is present, the value found is one stored under that key, and with distinct keys it is the value of the entry under that key |
| `PhpArray.Unset` | src/AbstractForm.php:136 | after `unset` the key is absent, every other key keeps its value, and the array is no longer |
| `PhpArray.Without` | src/AbstractForm.php:134-138 | removing a list of keys makes each of them absent, keeps every other key's value, and never lengthens the array |
| `PhpArray.UnsetAbsent` | src/AbstractForm.php:135-137 | unsetting a key that is not set changes nothing, so the `isset` guard is harmless |
| `PhpArray.WithoutNone` | src/AbstractForm.php:132 | before any key is unset the array is the source array |
| `PhpArray.UnsetStep` | src/AbstractForm.php:134-138 | one turn of the loop, the `isset`-guarded `unset` of the next reserved key, extends the removal by that key |
| `PhpArray.WithoutSnoc` | src/AbstractForm.php:134-138 | unsetting the reserved keys one after another removes all of them |
| `PhpArray.WithoutAppend` | src/AbstractForm.php:134-138 | removal commutes with concatenation, so kept entries keep their relative order |
| `PhpArray.WithoutSingle` | src/AbstractForm.php:134-138 | one entry is kept exactly when its key is not removed |
| `PhpArray.WithoutEntries` | src/AbstractForm.php:134-138 | every kept entry is an entry of the source with a key that was not removed |
| `PhpArray.WithoutDistinct` | src/AbstractForm.php:130-141 | removing keys keeps the keys distinct |
| `OldInput.Isset` | tests/Stubs/helpers.php:14 | `isset` fails for a missing key and for a key holding `null`, and holds for a key holding a string |
| `OldInput.ValueOr` | tests/Stubs/helpers.php:17-20 | `get` answers the stored string when there is one, and the default for a missing key or a stored `null` |
| `OldInput.OldValuesStorage.constructor` | tests/Stubs/helpers.php:5 | the store starts empty |
| `OldInput.OldValuesStorage.Set` | tests/Stubs/helpers.php:7-10 | the table afterwards is the old table with `key` mapped to `value` (possibly `null`) |
| `OldInput.OldValuesStorage.Has` | tests/Stubs/helpers.php:12-15 | true exactly when the key is present with a non-null value |
| `OldInput.OldValuesStorage.Get` | tests/Stubs/helpers.php:17-20 | the stored value when `has` holds, else the default |
| `OldInput.OldValuesStorage.Forget` | tests/Stubs/helpers.php:22-25 | the table afterwards is the old table without `key` |
| `OldInput.OldValuesStorage.Flush` | tests/Stubs/helpers.php:27-30 | the table afterwards is empty |
| `OldInput.Old` | tests/Stubs/helpers.php:33-36 | `old(k, d)` answers what the store's `get(k, d)` answers |
| `OldInput.SetThenGet` | tests/Stubs/helpers.php:7-20 | after `set(k, v)`, `has(k)` holds iff `v` is non-null, and `get(k, d)` is `v` then, `d` otherwise |
| `OldInput.SetKeepsOthers` | tests/Stubs/helpers.php:7-10 | `set(k, v)` leaves `has` and `get` of every other key unchanged |
| `OldInput.ForgetThenGet` | tests/Stubs/helpers.php:22-25 | after `forget(k)`, `has(k)` fails, `get(k, d)` is `d`, other keys are unchanged |
| `OldInput.FlushThenGet` | tests/Stubs/helpers.php:27-30 | after `flush()` no key is set and every `get` answers its default |
| `AbstractForm.FieldType` | src/AbstractForm.php:198-201 | the declared type lower-cased, `text` when none is declared; never an upper-case letter |
| `AbstractForm.FieldTypeOfLowerCase` | src/AbstractForm.php:198-201 | a lower-case declared type is the field type unchanged |
| `AbstractForm.FieldTypeIgnoresCase` | src/AbstractForm.php:198-201 | declaring a type in upper or lower case gives the same field type |
| `AbstractForm.IsValidField` | src/AbstractForm.php:162-165 | a field is valid iff it declares no type or its lower-cased type is in the whitelist |
| `AbstractForm.FieldShouldUseOwnMarkup` | src/AbstractForm.php:186-189 | a field uses its own markup iff it declares a type whose lower-case form is `hidden` or `checkbox`; every such field is valid |
| `AbstractForm.StudlyFrom` | src/AbstractForm.php:176 | studly casing leaves no separator and never lengthens the string |
| `AbstractForm.StudlyOfWord` | src/AbstractForm.php:176 | a name without separators is one word: only its first character is upper-cased |
| `AbstractForm.StudlyAfterWord` | src/AbstractForm.php:176 | a word, a separator and a rest become the capitalised word followed by the studly-cased rest |
| `AbstractForm.StudlyChangesOnlyCase` | src/AbstractForm.php:176 | up to case, studly casing is the string with separators dropped |
| `AbstractForm.StudlyFirstIsUpper` | src/AbstractForm.php:176 | the first character of a studly string is already in upper case |
| `AbstractForm.Studly` | src/AbstractForm.php:176 | `Str::studly` leaves no separator, never lengthens the string, and its first character is already upper-case |
| `AbstractForm.Camel` | src/AbstractForm.php:176 | `Str::camel` leaves no separator and is the studly form with its first character lower-cased: not upper-case, and upper-casing it gives back the studly first character |
| `AbstractForm.InputId` | src/AbstractForm.php:174-177 | every id starts with `input` |
| `AbstractForm.InputIdIsStudly` | src/AbstractForm.php:174-177 | `ucfirst(camel(...))` undoes nothing and adds nothing: the id is `input` + studly(lower(name)) |
| `AbstractForm.InputIdIgnoresCase` | src/AbstractForm.php:174-177 | the id of a name equals the id of its lower-case and of its upper-case form |
| `AbstractForm.Get` | src/AbstractForm.php:102-105 | the option under the path when present, else the default |
| `AbstractForm.GetField` | src/AbstractForm.php:150-153 | a field is found exactly when one is declared under the name, and it is that declaration (with distinct names, the one entry under the name) |
| `AbstractForm.FieldAttributeValue` | src/AbstractForm.php:212-215 | `attributes.<key>` when the field has that attribute (with distinct keys, the value of the entry under the key), else the default |
| `AbstractForm.FieldClasses` | src/AbstractForm.php:246-255 | empty when the field has no `class` attribute or it is `""` or `"0"`; otherwise that attribute, with one leading space when asked |
| `AbstractForm.FieldClassesPrepend` | src/AbstractForm.php:246-255 | the spaced form is the plain form with a space in front, and no stray space when there is no class |
| `AbstractForm.ExtraSource` | src/AbstractForm.php:132 | the given array unless it is empty; then the `attributes` option, and `[]` when the form has none |
| `AbstractForm.ExtraOf` | src/AbstractForm.php:130-141 | `method`, `action`, `class`, `enctype` never survive; every other key keeps its value from the source array; the result is no longer than the source |
| `AbstractForm.OnlyExtraAttributes` | src/AbstractForm.php:130-141 | the loop leaves the source array (the options' `attributes` when the given one is empty) with the reserved keys unset |
| `AbstractForm.OnlyExtraOrder` | src/AbstractForm.php:134-140 | filtering keeps the relative order of the kept entries and keeps exactly the unreserved ones |
| `AbstractForm.OnlyExtraFallback` | src/AbstractForm.php:132 | an empty array gives the filtered `attributes` option, and nothing when that option is missing |
| `AbstractForm.Render` | src/AbstractForm.php:117-119 | a rendered attribute is its key and value plus three characters (`=` and two quotes); `ParseRendered` states that it reads back as itself |
| `AbstractForm.RenderAll` | src/AbstractForm.php:116-119 | one rendered string per attribute, in the same order |
| `AbstractForm.Implode` | src/AbstractForm.php:120 | joining nothing gives `""`; a join starts with its first part |
| `AbstractForm.ExtraAttributes` | src/AbstractForm.php:114-121 | the attribute string is empty exactly when no extra attribute is left |
| `AbstractForm.FieldAttributes` | src/AbstractForm.php:264-271 | empty exactly when the field has no attributes or only reserved ones |
| `AbstractForm.FieldAttributesIgnoresOptions` | src/AbstractForm.php:264-271 | the form's options never affect a field's attributes; non-empty ones are formatted from the field's own filtered array |
| `AbstractForm.IsPassword` | src/AbstractForm.php:228 | a field is a password field iff it has attributes and its `type` attribute is `password` |
| `AbstractForm.LookupName` | src/AbstractForm.php:232 | the stored value is looked up under `value_lookup` when the field has one, else under its name |
| `AbstractForm.FieldValue` | src/AbstractForm.php:226-236 | password fields give `""`; else old input under the name; else the stored value under the lookup name; else the default |
| `AbstractForm.PasswordNeverEchoed` | src/AbstractForm.php:228-230 | a password field's value is `""` whatever the stored values, old input and default |
| `AbstractForm.OldInputByOwnName` | src/AbstractForm.php:235 | only the old-input entry under the field's own name (not its alias) matters |
| `AbstractForm.ValuesByLookupName` | src/AbstractForm.php:232-233 | only the stored value under the lookup name (the alias when there is one) matters |
| `AbstractForm.EmptyOldInputWins` | src/AbstractForm.php:235 | an empty old input still wins over the stored value; a stored `null` counts as no old input |
| `AttributeSyntax.ParseRendered` | src/AbstractForm.php:117-119 | a rendered attribute whose key and value hold no `"` reads back as itself, leaving the rest of the string |
| `AttributeSyntax.ParseImplodeRender` | src/AbstractForm.php:116-120 | reading back a rendered, space-joined list gives the list, when no key or value holds a `"` |
| `AttributeSyntax.ExtraAttributesRoundTrip` | src/AbstractForm.php:114-121 | reading back `extraAttributes` gives exactly the kept attributes in order, when no kept key or value holds a `"` |
| `ExampleForm.GetMutatedInputValue` | tests/Stubs/ExampleForm.php:54-61 | `default value` without old input, otherwise the prefix, the old input and a closing quote |
| `ExampleForm.MutatedInputDistinguishes` | tests/Stubs/ExampleForm.php:54-61 | different old inputs give different texts, none equal to `default value` |
| `ExampleForm.DeclaredFields` | tests/Stubs/ExampleForm.php:19-41 | the fields are `name`, `email`, `password`, `photo_file`, `mutated_input` in that order, under distinct names |
| `ExampleForm.FoundFields` | tests/Stubs/ExampleForm.php:19-41 | `getField` finds each declared field under its name |
| `ExampleForm.NameIsText` | tests/FormsTest.php:23-29 | `name` has type `text` and is valid, not own markup |
| `ExampleForm.PhotoIsFileUpload` | tests/Stubs/ExampleForm.php:34-38 | `photo_file` has type `file-upload` and is valid, not own markup |
| `ExampleForm.EmailInputId` | tests/FormsTest.php:31-35 | `inputId("email")` is `inputEmail` |
| `ExampleForm.UpperEmailInputId` | tests/FormsTest.php:36 | `inputId("EMAIL")` is `inputEmail` |
| `ExampleForm.PasswordClasses` | tests/FormsTest.php:39-54 | the password field's class is `password-visible`, with and without the leading space |
| `ExampleForm.PasswordExtraAttributes` | tests/FormsTest.php:56-61 | `class` is not among the password field's extra attributes, which render as `type="password"` |
| `ExampleForm.PasswordValueRedacted` | tests/Stubs/ExampleForm.php:48 | the stored `secret` is never shown for the password field |
| `ExampleForm.StoredValues` | tests/FormsTest.php:63-75 | with no old input, `photo_file` shows the URL stored under `photo` and `mutated_input` shows `default value` |
| `ExampleForm.MutatedInputScenario` | tests/FormsTest.php:71-79 | on a flushed store the value is `default value`, and after `set` it is the raw `mutated input`, not the mutator's text |

## Left out

- Mutator dispatch: tests/FormsTest.php:78 expects `fieldValue` to pass old input through `getMutatedInputValue`. The code at src/AbstractForm.php:226-236 calls no mutator, so with the code as written the value is `mutated input`. The model follows the code; `MutatedInputScenario` proves the as-written value and that it differs from what that test line expects.
- `id()` returns `abstract-form-` followed by `rand()`; it is nondeterministic and not modelled.
- `method()`, `action()` and `fields()` are abstract, and `withUploads()` and `submitLabel()` return constants. The form's fields, values and options are the fields of `Form`. The example form's method and action are plain constants.
- Laravel's `array_get` follows dot paths into nested arrays. The model looks keys up flat, so a field or attribute name containing `.` is not modelled.
- `Str::lower` and `Str::ucfirst` use the multibyte functions; the model changes the case of ASCII letters only.
- `StudlyFrom`, `Studly`, `Camel`: tabs, newlines and other whitespace are ordinary characters in the model. PHP's `ucwords` inside `Str::studly` also upper-cases the letter after them.
- PHP loose typing: attribute values, stored values and option values are strings. `null` appears only as a stored old-input value and as a default. Options other than arrays of string attributes are not modelled; the only option the core reads is `attributes`.
- `in_array`'s loose comparison is modelled as string equality. The two agree here because no listed type is a numeric string.
- Passing `null` (a field `getField` did not find) to the helpers is a PHP type error; the model's helpers take a `Field`, and `GetField` returns an `Option`.
- The static storage of `OldValuesStorage` is one explicit object. `FieldValue` reads a snapshot of its table instead of global state.
- `Str::camel`'s cache has no observable effect and is not modelled.
