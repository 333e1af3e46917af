/** A reader for the `key="value" key="value"` strings that `extraAttributes`
    writes, used as an independent check that the formatting loses nothing:
    reading back a formatted list gives the list itself. */
module AttributeSyntax {
  import opened Wrappers
  import opened AbstractForm

  /** Position of the first `c` in `s`, or `|s|` when there is none. */
  function IndexOf(s: string, c: char): (i: nat)
    ensures i <= |s|
    ensures i < |s| ==> s[i] == c
    ensures forall j :: 0 <= j < i ==> s[j] != c
  {
    if s == [] then 0 else if s[0] == c then 0 else 1 + IndexOf(s[1..], c)
  }

  /** Position of the first `="` in `s`, or `|s|` when there is none. */
  function IndexOfAssign(s: string): (i: nat)
    ensures i <= |s|
    ensures i < |s| ==> i + 1 < |s| && s[i] == '=' && s[i + 1] == '"'
    ensures forall j :: 0 <= j < i && j + 1 < |s| ==> !(s[j] == '=' && s[j + 1] == '"')
  {
    if |s| < 2 then |s|
    else if s[0] == '=' && s[1] == '"' then 0
    else 1 + IndexOfAssign(s[1..])
  }

  /** Reads one `key="value"` from the front of `s`, returning it and the rest:
      the key runs up to the first `="`, the value up to the next `"`. */
  function ParseAttribute(s: string): (r: Option<((string, string), string)>)
    ensures r.Some? ==> |r.value.1| < |s|
  {
    var i := IndexOfAssign(s);
    if i == |s| then None
    else
      var t := s[i + 2..];
      var j := IndexOf(t, '"');
      if j == |t| then None
      else Some(((s[..i], t[..j]), t[j + 1..]))
  }

  /** Reads a whole space-separated attribute string. */
  function ParseAttributes(s: string): Option<Attrs>
    decreases |s|
  {
    if s == [] then Some([])
    else match ParseAttribute(s)
      case None => None
      case Some((p, rest)) =>
        if rest == [] then Some([p])
        else if rest[0] == ' ' && |rest| > 1 then
          match ParseAttributes(rest[1..])
          case None => None
          case Some(ps) => Some([p] + ps)
        else None
  }

  /** Attributes that can be read back: no `"` in a key or a value. */
  ghost predicate Readable(ps: Attrs)
  {
    forall i :: 0 <= i < |ps| ==> '"' !in ps[i].0 && '"' !in ps[i].1
  }

  lemma {:induction false} IndexOfAfter(a: string, b: string, c: char)
    requires c !in a
    ensures IndexOf(a + b, c) == |a| + IndexOf(b, c)
  {
    if a == [] {
      assert a + b == b;
    } else {
      assert (a + b)[0] == a[0] && (a + b)[1..] == a[1..] + b;
      IndexOfAfter(a[1..], b, c);
    }
  }

  /** Before the `="` that follows a quote-free prefix there is no other `="`. */
  lemma {:induction false} IndexOfAssignAfter(a: string, b: string)
    requires '"' !in a
    requires |b| >= 2 && b[0] == '=' && b[1] == '"'
    ensures IndexOfAssign(a + b) == |a|
  {
    if a == [] {
      assert a + b == b;
    } else {
      var s := a + b;
      assert s[1] == (if |a| > 1 then a[1] else b[0]);
      assert s[1..] == a[1..] + b;
      IndexOfAssignAfter(a[1..], b);
    }
  }

  /** The value and the rest after a key's `="`: the value runs up to the
      first quote. */
  lemma {:induction false} SplitValue(v: string, rest: string)
    requires '"' !in v
    ensures var t := v + ("\"" + rest);
      IndexOf(t, '"') == |v| && t[..|v|] == v && t[|v| + 1..] == rest
  {
    IndexOfAfter(v, "\"" + rest, '"');
    var t := v + ("\"" + rest);
    assert t[..|v|] == v;
    assert t[|v| + 1..] == rest;
  }

  /** One rendered attribute reads back as itself, leaving the rest untouched. */
  lemma ParseRendered(p: (string, string), rest: string)
    requires '"' !in p.0 && '"' !in p.1
    ensures ParseAttribute(Render(p) + rest) == Some((p, rest))
  {
    var k, v := p.0, p.1;
    var t := v + ("\"" + rest);
    var tail := "=\"" + t;
    var s := Render(p) + rest;
    assert s == k + tail;
    IndexOfAssignAfter(k, tail);
    assert s[..|k|] == k;
    assert s[|k| + 2..] == t;
    SplitValue(v, rest);
  }

  /** Formatting then reading back recovers the attribute list exactly. */
  lemma {:induction false} ParseImplodeRender(ps: Attrs)
    requires Readable(ps)
    ensures ParseAttributes(Implode(" ", RenderAll(ps))) == Some(ps)
  {
    if ps != [] {
      var p := ps[0];
      var xs := RenderAll(ps);
      if |ps| == 1 {
        ParseRendered(p, []);
        assert Render(p) + [] == Render(p);
        assert Implode(" ", xs) == Render(p);
        assert ParseAttributes(Render(p)) == Some([p]);
        assert [p] == ps;
      } else {
        assert Readable(ps[1..]);
        assert RenderAll(ps[1..]) == xs[1..];
        var tail := Implode(" ", xs[1..]);
        assert Implode(" ", xs) == Render(p) + (" " + tail);
        ParseRendered(p, " " + tail);
        assert |tail| >= |Render(ps[1])|;
        assert (" " + tail)[1..] == tail;
        ParseImplodeRender(ps[1..]);
        assert [p] + ps[1..] == ps;
      }
    }
  }

  /** Reading back what `extraAttributes` writes gives exactly the keys and
      values `onlyExtraAttributes` kept, in order. */
  lemma ExtraAttributesRoundTrip(form: Form, attributes: Attrs)
    requires Readable(ExtraOf(form, attributes))
    ensures ParseAttributes(ExtraAttributes(form, attributes)) == Some(ExtraOf(form, attributes))
  {
    ParseImplodeRender(ExtraOf(form, attributes));
  }
}
