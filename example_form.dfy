/** The concrete form the test suite renders: five fields, editing values and
    the `getMutatedInputValue` mutator, with the suite's assertions as lemmas. */
module ExampleForm {
  import opened Wrappers
  import opened Ascii
  import opened PhpArray
  import opened AbstractForm
  import OldInput

  const Method: string := "POST"

  const Action: string := "https://example.org"

  const NameField: Field := Field(None, None, None, "Name")

  const EmailField: Field := Field(None, Some([("type", "email")]), None, "Email")

  const PasswordField: Field :=
    Field(None, Some([("type", "password"), ("class", "password-visible")]), None, "Password")

  const PhotoField: Field := Field(Some("file-upload"), None, Some("photo"), "Photo")

  const MutatedField: Field := Field(None, None, None, "Mutated")

  const Fields: Entries<Field> := [
    ("name", NameField),
    ("email", EmailField),
    ("password", PasswordField),
    ("photo_file", PhotoField),
    ("mutated_input", MutatedField)
  ]

  const MutatedPrefix: string := "mutated from old value, old: \""

  /** The form's mutator: a fixed text without old input, otherwise a
      description quoting the old input. */
  function GetMutatedInputValue(oldValue: Option<string>): (r: string)
    ensures oldValue.None? ==> r == "default value"
    ensures oldValue.Some? ==>
      && |r| == |MutatedPrefix| + |oldValue.value| + 1
      && r[..|MutatedPrefix|] == MutatedPrefix
      && r[|MutatedPrefix|..|r| - 1] == oldValue.value
      && r[|r| - 1] == '"'
  {
    if oldValue.None? then "default value" else MutatedPrefix + oldValue.value + "\""
  }

  /** Different old inputs give different mutated texts, and none of them is
      the text used without old input. */
  lemma MutatedInputDistinguishes(x: string, y: string)
    ensures GetMutatedInputValue(Some(x)) == GetMutatedInputValue(Some(y)) ==> x == y
    ensures GetMutatedInputValue(Some(x)) != GetMutatedInputValue(None)
  {
    var a, b := GetMutatedInputValue(Some(x)), GetMutatedInputValue(Some(y));
    if a == b {
      assert x == a[|MutatedPrefix|..|a| - 1] == b[|MutatedPrefix|..|b| - 1] == y;
    }
  }

  const Values: map<string, string> := map[
    "name" := "John Doe",
    "email" := "john@example.org",
    "password" := "secret",
    "photo" := "https://example.org/image.png",
    "mutated_input" := GetMutatedInputValue(None)
  ]

  /** The form as a whole; it overrides no options. */
  const Example: Form := Form(Fields, Values, map[])

  function FieldNames(fs: Entries<Field>): (r: seq<string>)
    ensures |r| == |fs|
    ensures forall i :: 0 <= i < |fs| ==> r[i] == fs[i].0
  {
    if fs == [] then [] else [fs[0].0] + FieldNames(fs[1..])
  }

  /** The fields, in display order, under distinct names. */
  lemma DeclaredFields()
    ensures FieldNames(Example.fields) == ["name", "email", "password", "photo_file", "mutated_input"]
    ensures DistinctKeys(Example.fields)
  {
  }

  /** `getField` finds each declared field under its name. */
  lemma FoundFields()
    ensures GetField(Example, "name") == Some(NameField)
    ensures GetField(Example, "email") == Some(EmailField)
    ensures GetField(Example, "password") == Some(PasswordField)
    ensures GetField(Example, "photo_file") == Some(PhotoField)
    ensures GetField(Example, "mutated_input") == Some(MutatedField)
  {
    DeclaredFields();
    assert Fields[0] == ("name", NameField) && Fields[1] == ("email", EmailField);
    assert Fields[2] == ("password", PasswordField) && Fields[3] == ("photo_file", PhotoField);
    assert Fields[4] == ("mutated_input", MutatedField);
  }

  /** `name` declares no type, so it is a text field: valid, and rendered by
      the generic markup. */
  lemma NameIsText()
    ensures FieldType(NameField) == "text" && IsValidField(NameField)
    ensures !FieldShouldUseOwnMarkup(NameField)
  {
    assert FieldType(NameField) == "text" by {
      assert NoUpper("text");
      LowerOfNoUpper("text");
    }
  }

  /** `photo_file` is a file upload: valid, and rendered by the generic markup. */
  lemma PhotoIsFileUpload()
    ensures FieldType(PhotoField) == "file-upload" && IsValidField(PhotoField)
    ensures !FieldShouldUseOwnMarkup(PhotoField)
  {
    PhotoTypeIsFileUpload();
    assert ValidTypes[4] == "file-upload";
    assert "file-upload"[0] != "hidden"[0] && "file-upload"[0] != "checkbox"[0];
  }

  lemma PhotoTypeIsFileUpload()
    ensures FieldType(PhotoField) == "file-upload"
  {
    assert NoUpper(PhotoField.declaredType.value);
    FieldTypeOfLowerCase(PhotoField);
  }

  /** `email` gets the id `inputEmail`. */
  lemma EmailInputId()
    ensures InputId("email") == "inputEmail"
  {
    InputIdIsStudly("email");
    LowerEmail();
    StudlyEmail();
  }

  lemma LowerEmail()
    ensures Lower("email") == "email"
  {
    assert NoUpper("email");
    LowerOfNoUpper("email");
  }

  lemma StudlyEmail()
    ensures Studly("email") == "Email"
  {
    assert NoSeparator("email");
    StudlyOfWord("email", true);
    assert ToUpper('e') == 'E';
    assert "email"[1..] == "mail";
  }

  /** `EMAIL` gets the same id as `email`. */
  lemma UpperEmailInputId()
    ensures InputId("EMAIL") == "inputEmail"
  {
    EmailInputId();
    InputIdIgnoresCase("email");
    assert Upper("email") == "EMAIL";
  }

  /** The password field's classes, with and without the leading space. */
  lemma PasswordClasses()
    ensures FieldAttributeValue(PasswordField, "class", None) == Some("password-visible")
    ensures FieldClasses(PasswordField, true) == " password-visible"
    ensures FieldClasses(PasswordField, false) == "password-visible"
  {
    var attrs := PasswordField.attributes.value;
    assert Lookup(attrs, "class") == Some("password-visible") by {
      assert attrs[0].0 == "type" != "class";
      assert attrs[1..] == [("class", "password-visible")];
    }
    var c := FieldAttributeValue(PasswordField, "class", Some("")).value;
    assert c == "password-visible";
    assert !IsFalsy(c) by { assert |c| > 1; }
  }

  /** The class is not among the password field's extra attributes, which
      render as its `type` alone. */
  lemma PasswordExtraAttributes()
    ensures Lookup(ExtraOf(Example, PasswordField.attributes.value), "class") == None
    ensures ExtraOf(Example, PasswordField.attributes.value) == [("type", "password")]
    ensures FieldAttributes(Example, PasswordField) == "type=\"password\""
  {
    var attrs := PasswordField.attributes.value;
    assert "class" in ExcludeFromExtra;
    assert attrs == [("type", "password")] + [("class", "password-visible")];
    WithoutAppend([("type", "password")], [("class", "password-visible")], ExcludeFromExtra);
    WithoutSingle(("type", "password"), ExcludeFromExtra);
    WithoutSingle(("class", "password-visible"), ExcludeFromExtra);
    var kept := ExtraOf(Example, attrs);
    assert kept == [("type", "password")];
    assert RenderAll(kept) == [Render(("type", "password"))];
  }

  /** The stored secret is never shown for the password field. */
  lemma PasswordValueRedacted(o: OldInput.Store, d: Option<string>)
    ensures FieldValue(Example, o, "password", PasswordField, d) == Some("")
  {
  }

  /** Without old input, `photo_file` shows the value stored under its alias
      `photo`, and `mutated_input` its stored default. */
  lemma StoredValues()
    ensures FieldValue(Example, map[], "photo_file", PhotoField, None) == Some("https://example.org/image.png")
    ensures FieldValue(Example, map[], "mutated_input", MutatedField, None) == Some("default value")
  {
  }

  /** The test suite's mutator scenario on a flushed store. The value is
      `"default value"` before old input is set and the raw old input after:
      `fieldValue` never calls `getMutatedInputValue`. */
  method MutatedInputScenario() returns (before: Option<string>, after: Option<string>)
    ensures before == Some("default value")
    ensures after == Some("mutated input")
    ensures after != Some(GetMutatedInputValue(Some("mutated input")))
  {
    var store := new OldInput.OldValuesStorage();
    store.Flush();
    var field := GetField(Example, "mutated_input");
    FoundFields();
    before := FieldValue(Example, store.values, "mutated_input", field.value, None);
    store.Set("mutated_input", Some("mutated input"));
    after := FieldValue(Example, store.values, "mutated_input", field.value, None);
    MutatedInputDistinguishes("mutated input", "mutated input");
  }
}
