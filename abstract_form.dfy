/** The field helpers of `AbstractForm`: type classification, input ids,
    attribute filtering and formatting, CSS classes and the value precedence
    of a field (redaction, then old input, then stored values, then default). */
module AbstractForm {
  import opened Wrappers
  import opened Ascii
  import opened PhpArray
  import OldInput

  /** A field's or a form's attribute array, `name => value` in order. */
  type Attrs = Entries<string>

  /** One entry of `fields()`: the keys `type`, `attributes`, `value_lookup`
      and `label`; a missing key is `None`. */
  datatype Field = Field(
    declaredType: Option<string>,
    attributes: Option<Attrs>,
    valueLookup: Option<string>,
    fieldLabel: string)

  /** What a concrete form supplies: `fields()` in display order, `values()`
      (editing mode) and `options()`, of which only array-valued options are
      modelled. */
  datatype Form = Form(
    fields: Entries<Field>,
    values: map<string, string>,
    options: map<string, Attrs>)

  const ValidTypes: seq<string> := ["hidden", "text", "select", "checkbox", "file-upload", "summernote"]

  const OwnMarkupTypes: seq<string> := ["hidden", "checkbox"]

  const ExcludeFromExtra: seq<string> := ["method", "action", "class", "enctype"]

  const DefaultType: string := "text"

  // ----- Type classification -----

  /** The field's declared type in lower case, `text` when it declares none. */
  function FieldType(f: Field): (r: string)
    ensures NoUpper(r)
    ensures f.declaredType.None? ==> r == DefaultType
    ensures f.declaredType.Some? ==> r == Lower(f.declaredType.value)
  {
    Lower(f.declaredType.GetOr(DefaultType))
  }

  /** The field's type is one the form knows how to render: a field without
      a type is valid, a typed one exactly when its lower-cased type is listed. */
  predicate IsValidField(f: Field): (b: bool)
    ensures b <==> f.declaredType.None? || Lower(f.declaredType.value) in ValidTypes
  {
    FieldType(f) in ValidTypes
  }

  /** The field is rendered by its own markup: it declares a type whose lower
      case is `hidden` or `checkbox`. Such a field is always a valid one. */
  predicate FieldShouldUseOwnMarkup(f: Field): (b: bool)
    ensures b <==> f.declaredType.Some? && Lower(f.declaredType.value) in OwnMarkupTypes
    ensures b ==> IsValidField(f)
  {
    FieldType(f) in OwnMarkupTypes
  }

  /** A declared type already in lower case is the field's type as it stands. */
  lemma FieldTypeOfLowerCase(f: Field)
    requires f.declaredType.Some? && NoUpper(f.declaredType.value)
    ensures FieldType(f) == f.declaredType.value
  {
    LowerOfNoUpper(f.declaredType.value);
  }

  /** The declared type is compared without regard to case. */
  lemma FieldTypeIgnoresCase(f: Field, t: string)
    requires f.declaredType == Some(t)
    ensures FieldType(f) == FieldType(f.(declaredType := Some(Upper(t))))
    ensures FieldType(f) == FieldType(f.(declaredType := Some(Lower(t))))
  {
    LowerOfUpper(t);
    LowerIdempotent(t);
  }

  // ----- Input ids -----

  /** The characters at which `Str::studly` splits words. */
  predicate IsSeparator(c: char)
  {
    c == '-' || c == '_' || c == ' '
  }

  ghost predicate NoSeparator(s: string)
  {
    forall i :: 0 <= i < |s| ==> !IsSeparator(s[i])
  }

  /** `Str::studly` from a point where the next character does (`cap`) or does
      not start a word: separators are dropped and every word's first
      character is upper-cased. */
  function StudlyFrom(s: string, cap: bool): (r: string)
    ensures NoSeparator(r)
    ensures |r| <= |s|
  {
    if s == [] then []
    else if IsSeparator(s[0]) then StudlyFrom(s[1..], true)
    else [if cap then ToUpper(s[0]) else s[0]] + StudlyFrom(s[1..], false)
  }

  /** `Str::studly`: no separator is left, and the first character is
      already upper-case (or no letter). */
  function Studly(s: string): (r: string)
    ensures NoSeparator(r)
    ensures |r| <= |s|
    ensures r != [] ==> ToUpper(ToLower(r[0])) == r[0]
  {
    StudlyFirstIsUpper(s);
    StudlyFrom(s, true)
  }

  /** `Str::camel`: studly case with a lower-case first character. */
  function Camel(s: string): (r: string)
    ensures NoSeparator(r)
    ensures |r| == |Studly(s)|
    ensures r != [] ==> !IsUpper(r[0]) && ToUpper(r[0]) == Studly(s)[0] && r[1..] == Studly(s)[1..]
  {
    LcFirst(Studly(s))
  }

  /** The HTML id of a field's input element. */
  function InputId(name: string): (r: string)
    ensures |r| >= 5 && r[..5] == "input"
  {
    "input" + UcFirst(Camel(Lower(name)))
  }

  /** `s` with every separator dropped and nothing else changed. */
  function DropSeparators(s: string): string
  {
    if s == [] then []
    else if IsSeparator(s[0]) then DropSeparators(s[1..])
    else [s[0]] + DropSeparators(s[1..])
  }

  /** The first character of a studly string is already upper-case (or no letter). */
  lemma {:induction false} StudlyFirstIsUpper(s: string)
    ensures StudlyFrom(s, true) != [] ==> ToUpper(ToLower(StudlyFrom(s, true)[0])) == StudlyFrom(s, true)[0]
  {
    if s != [] {
      if IsSeparator(s[0]) {
        StudlyFirstIsUpper(s[1..]);
      } else {
        ToUpperOfToLowerOfToUpper(s[0]);
      }
    }
  }

  /** Upper-casing the first character of the camel form restores the studly
      form, so the id is `input` followed by the studly-cased lower-case name. */
  lemma InputIdIsStudly(name: string)
    ensures InputId(name) == "input" + Studly(Lower(name))
  {
    var s := Studly(Lower(name));
    StudlyFirstIsUpper(Lower(name));
    if s != [] {
      assert UcFirst(LcFirst(s)) == [ToUpper(ToLower(s[0]))] + s[1..];
      assert UcFirst(LcFirst(s)) == s;
    }
  }

  /** The id depends only on the lower-case name: `email` and `EMAIL` agree. */
  lemma InputIdIgnoresCase(name: string)
    ensures InputId(Lower(name)) == InputId(name)
    ensures InputId(Upper(name)) == InputId(name)
  {
    LowerIdempotent(name);
    LowerOfUpper(name);
  }

  /** A name without separators becomes one word with an upper-case first letter. */
  lemma {:induction false} StudlyOfWord(w: string, cap: bool)
    requires NoSeparator(w)
    ensures StudlyFrom(w, cap) == if cap then UcFirst(w) else w
  {
    if w != [] {
      assert NoSeparator(w[1..]);
      StudlyOfWord(w[1..], false);
    }
  }

  /** A word followed by a separator: the word is capitalised, the separator
      dropped and the rest is studly-cased as a new start. */
  lemma {:induction false} StudlyAfterWord(w: string, c: char, rest: string, cap: bool)
    requires NoSeparator(w) && IsSeparator(c)
    ensures StudlyFrom(w + [c] + rest, cap) == (if cap then UcFirst(w) else w) + Studly(rest)
  {
    if w == [] {
      assert w + [c] + rest == [c] + rest;
      assert ([c] + rest)[1..] == rest;
    } else {
      var s := w + [c] + rest;
      assert s[0] == w[0] && s[1..] == w[1..] + [c] + rest;
      assert NoSeparator(w[1..]);
      StudlyAfterWord(w[1..], c, rest, false);
    }
  }

  /** Studly casing only drops separators and changes the case of letters. */
  lemma {:induction false} StudlyChangesOnlyCase(s: string, cap: bool)
    ensures Lower(StudlyFrom(s, cap)) == Lower(DropSeparators(s))
  {
    if s != [] {
      StudlyChangesOnlyCase(s[1..], IsSeparator(s[0]));
      if !IsSeparator(s[0]) {
        var h := if cap then ToUpper(s[0]) else s[0];
        ToLowerOfToUpper(s[0]);
        LowerAppend([h], StudlyFrom(s[1..], false));
        LowerAppend([s[0]], DropSeparators(s[1..]));
      }
    }
  }

  // ----- Options and fields -----

  /** `get($path, $default)`: the option under `path`, else `default`. */
  function Get(form: Form, path: string, default: Attrs): (r: Attrs)
    ensures path in form.options ==> r == form.options[path]
    ensures path !in form.options ==> r == default
  {
    if path in form.options then form.options[path] else default
  }

  /** `getField($name)`: the field declared under `name`, if any. */
  function GetField(form: Form, name: string): (r: Option<Field>)
    ensures r.Some? <==> HasKey(form.fields, name)
    ensures r.Some? ==> (name, r.value) in form.fields
    ensures DistinctKeys(form.fields) ==>
      forall i :: 0 <= i < |form.fields| && form.fields[i].0 == name ==> r == Some(form.fields[i].1)
  {
    Lookup(form.fields, name)
  }

  /** `attributes.<key>` of the field, else `default`. */
  function FieldAttributeValue(f: Field, key: string, default: Option<string>): (r: Option<string>)
    ensures f.attributes.Some? && HasKey(f.attributes.value, key) ==>
      r.Some? && (key, r.value) in f.attributes.value
    ensures f.attributes.None? || !HasKey(f.attributes.value, key) ==> r == default
    ensures f.attributes.Some? && DistinctKeys(f.attributes.value) ==>
      forall i :: 0 <= i < |f.attributes.value| && f.attributes.value[i].0 == key ==>
        r == Some(f.attributes.value[i].1)
  {
    match f.attributes
    case None => default
    case Some(attrs) => match Lookup(attrs, key)
      case None => default
      case Some(v) => Some(v)
  }

  /** PHP's falsy strings. */
  predicate IsFalsy(s: string)
  {
    s == "" || s == "0"
  }

  /** The field's `class` attribute, optionally with one leading space, and
      nothing at all when the class is missing or falsy. */
  function FieldClasses(f: Field, prependWithSpace: bool): (r: string)
    ensures f.attributes.None? || !HasKey(f.attributes.value, "class") ==> r == ""
    ensures f.attributes.Some? && Lookup(f.attributes.value, "class").Some? ==>
      var c := Lookup(f.attributes.value, "class").value;
      && (IsFalsy(c) ==> r == "")
      && (!IsFalsy(c) && !prependWithSpace ==> r == c)
      && (!IsFalsy(c) && prependWithSpace ==> r == " " + c)
  {
    var classes := FieldAttributeValue(f, "class", Some("")).value;
    if IsFalsy(classes) then "" else (if prependWithSpace then " " else "") + classes
  }

  /** The prepended form is the plain form with a space in front, and no space
      appears when there is no class. */
  lemma FieldClassesPrepend(f: Field)
    ensures FieldClasses(f, true) == if FieldClasses(f, false) == "" then "" else " " + FieldClasses(f, false)
  {
  }

  // ----- Extra attributes -----

  /** The array `onlyExtraAttributes` filters: the given one, or the form's
      `attributes` option when the given one is empty. */
  function ExtraSource(form: Form, attributes: Attrs): (r: Attrs)
    ensures attributes != [] ==> r == attributes
    ensures attributes == [] && "attributes" in form.options ==> r == form.options["attributes"]
    ensures attributes == [] && "attributes" !in form.options ==> r == []
  {
    if attributes != [] then attributes else Get(form, "attributes", [])
  }

  /** What `onlyExtraAttributes` returns: the source with the reserved keys
      removed. No reserved key survives, every other key keeps its value. */
  function ExtraOf(form: Form, attributes: Attrs): (r: Attrs)
    ensures |r| <= |ExtraSource(form, attributes)|
    ensures forall k :: k in ExcludeFromExtra ==> Lookup(r, k) == None
    ensures forall k :: k !in ExcludeFromExtra ==> Lookup(r, k) == Lookup(ExtraSource(form, attributes), k)
  {
    Without(ExtraSource(form, attributes), ExcludeFromExtra)
  }

  method OnlyExtraAttributes(form: Form, attributes: Attrs) returns (r: Attrs)
    ensures r == ExtraOf(form, attributes)
  {
    var attrs := if attributes != [] then attributes else Get(form, "attributes", []);
    ghost var source := attrs;
    assert ExcludeFromExtra[..0] == [];
    WithoutNone(source);
    for i := 0 to |ExcludeFromExtra|
      invariant attrs == Without(source, ExcludeFromExtra[..i])
    {
      var attribute := ExcludeFromExtra[i];
      UnsetStep(source, ExcludeFromExtra, i);
      if Lookup(attrs, attribute).Some? {
        attrs := Unset(attrs, attribute);
      }
    }
    assert ExcludeFromExtra[..|ExcludeFromExtra|] == ExcludeFromExtra;
    r := attrs;
  }

  /** The kept entries stay in their order: filtering a concatenation is the
      concatenation of the filtered parts, and one entry is kept exactly when
      its key is not reserved. */
  lemma OnlyExtraOrder(form: Form, a: Attrs, b: Attrs, p: (string, string))
    requires a != []
    ensures ExtraOf(form, a + b) == ExtraOf(form, a) + Without(b, ExcludeFromExtra)
    ensures ExtraOf(form, [p]) == if p.0 in ExcludeFromExtra then [] else [p]
  {
    WithoutAppend(a, b, ExcludeFromExtra);
    WithoutSingle(p, ExcludeFromExtra);
  }

  /** An empty array falls back to the filtered `attributes` option, and to
      nothing when the form has no such option. */
  lemma OnlyExtraFallback(form: Form)
    ensures "attributes" in form.options ==>
      ExtraOf(form, []) == Without(form.options["attributes"], ExcludeFromExtra)
    ensures "attributes" !in form.options ==> ExtraOf(form, []) == []
  {
  }

  /** One attribute as `key="value"`. */
  function Render(p: (string, string)): (r: string)
    ensures |r| == |p.0| + |p.1| + 3
  {
    p.0 + "=\"" + p.1 + "\""
  }

  function RenderAll(ps: Attrs): (r: seq<string>)
    ensures |r| == |ps|
    ensures forall i :: 0 <= i < |ps| ==> r[i] == Render(ps[i])
  {
    if ps == [] then [] else [Render(ps[0])] + RenderAll(ps[1..])
  }

  /** PHP's `implode`. */
  function Implode(glue: string, xs: seq<string>): (r: string)
    ensures xs == [] ==> r == ""
    ensures xs != [] ==> |xs[0]| <= |r| && r[..|xs[0]|] == xs[0]
  {
    if |xs| == 0 then ""
    else if |xs| == 1 then xs[0]
    else xs[0] + glue + Implode(glue, xs[1..])
  }

  /** `extraAttributes`: the extra attributes as `key="value"` pairs joined by
      single spaces. */
  function ExtraAttributes(form: Form, attributes: Attrs): (r: string)
    ensures r == "" <==> ExtraOf(form, attributes) == []
  {
    Implode(" ", RenderAll(ExtraOf(form, attributes)))
  }

  /** `fieldAttributes`: nothing when the field has no attributes, otherwise
      the extra attributes of its own array. */
  function FieldAttributes(form: Form, f: Field): (r: string)
    ensures r == "" <==> f.attributes.None? || Without(f.attributes.value, ExcludeFromExtra) == []
  {
    match f.attributes
    case None => ""
    case Some(attrs) => if attrs == [] then "" else ExtraAttributes(form, attrs)
  }

  /** The options fallback never reaches `fieldAttributes`: the field's own
      attributes alone decide the result. */
  lemma FieldAttributesIgnoresOptions(form: Form, f: Field, options: map<string, Attrs>)
    ensures FieldAttributes(form, f) == FieldAttributes(form.(options := options), f)
    ensures f.attributes.Some? && f.attributes.value != [] ==>
      FieldAttributes(form, f) == Implode(" ", RenderAll(Without(f.attributes.value, ExcludeFromExtra)))
  {
  }

  // ----- Values -----

  /** The field's `attributes.type` is `password`. */
  predicate IsPassword(f: Field): (b: bool)
    ensures b <==> f.attributes.Some? && Lookup(f.attributes.value, "type") == Some("password")
  {
    FieldAttributeValue(f, "type", None) == Some("password")
  }

  /** The key under which the field's stored value is looked up. */
  function LookupName(f: Field, name: string): (r: string)
    ensures f.valueLookup.Some? ==> r == f.valueLookup.value
    ensures f.valueLookup.None? ==> r == name
  {
    f.valueLookup.GetOr(name)
  }

  /** `fieldValue($name, $field, $default)` with the old-input store's contents. */
  function FieldValue(form: Form, oldInput: OldInput.Store, name: string, f: Field, default: Option<string>): (r: Option<string>)
    ensures IsPassword(f) ==> r == Some("")
    ensures !IsPassword(f) && OldInput.Isset(oldInput, name) ==> r == oldInput[name]
    ensures !IsPassword(f) && !OldInput.Isset(oldInput, name) && LookupName(f, name) in form.values ==>
      r == Some(form.values[LookupName(f, name)])
    ensures !IsPassword(f) && !OldInput.Isset(oldInput, name) && LookupName(f, name) !in form.values ==>
      r == default
  {
    if FieldAttributeValue(f, "type", None) == Some("password") then Some("")
    else
      var lookupName := f.valueLookup.GetOr(name);
      var value := if lookupName in form.values then Some(form.values[lookupName]) else default;
      OldInput.ValueOr(oldInput, name, value)
  }

  /** A password field is never echoed: neither stored values, old input nor
      the default can change its empty value. */
  lemma PasswordNeverEchoed(form: Form, form': Form, o: OldInput.Store, o': OldInput.Store,
                            name: string, f: Field, d: Option<string>, d': Option<string>)
    requires IsPassword(f)
    ensures FieldValue(form, o, name, f, d) == FieldValue(form', o', name, f, d') == Some("")
  {
  }

  /** Old input is read under the field's own name, never under its alias:
      only the entry at `name` matters. */
  lemma OldInputByOwnName(form: Form, o: OldInput.Store, o': OldInput.Store,
                          name: string, f: Field, d: Option<string>)
    requires OldInput.Isset(o, name) == OldInput.Isset(o', name)
    requires OldInput.Isset(o, name) ==> o[name] == o'[name]
    ensures FieldValue(form, o, name, f, d) == FieldValue(form, o', name, f, d)
  {
  }

  /** Stored values are read only under the lookup name (the alias when the
      field has one). */
  lemma ValuesByLookupName(form: Form, values: map<string, string>, o: OldInput.Store,
                           name: string, f: Field, d: Option<string>)
    requires LookupName(f, name) in form.values <==> LookupName(f, name) in values
    requires LookupName(f, name) in values ==> form.values[LookupName(f, name)] == values[LookupName(f, name)]
    ensures FieldValue(form, o, name, f, d) == FieldValue(form.(values := values), o, name, f, d)
  {
  }

  /** Old input wins even when it is the empty string; only a stored `null`
      lets the stored value through. */
  lemma EmptyOldInputWins(form: Form, o: OldInput.Store, name: string, f: Field, d: Option<string>)
    requires !IsPassword(f)
    ensures FieldValue(form, o[name := Some("")], name, f, d) == Some("")
    ensures FieldValue(form, o[name := None], name, f, d) == FieldValue(form, o - {name}, name, f, d)
  {
  }
}
