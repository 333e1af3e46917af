/** ASCII case mapping, standing in for Laravel's `Str::lower` / `Str::ucfirst`
    and PHP's `lcfirst`. Only the letters A-Z and a-z change case. */
module Ascii {

  predicate IsUpper(c: char) { 'A' <= c <= 'Z' }

  predicate IsLower(c: char) { 'a' <= c <= 'z' }

  function ToLower(c: char): (r: char)
    ensures !IsUpper(r)
    ensures IsUpper(c) ==> IsLower(r) && r as int == c as int + 32
    ensures !IsUpper(c) ==> r == c
  {
    if IsUpper(c) then (c as int + 32) as char else c
  }

  function ToUpper(c: char): (r: char)
    ensures !IsLower(r)
    ensures IsLower(c) ==> IsUpper(r) && r as int == c as int - 32
    ensures !IsLower(c) ==> r == c
  {
    if IsLower(c) then (c as int - 32) as char else c
  }

  /** No upper-case ASCII letter anywhere in `s`. */
  ghost predicate NoUpper(s: string)
  {
    forall i :: 0 <= i < |s| ==> !IsUpper(s[i])
  }

  /** `Str::lower`, restricted to ASCII. */
  function Lower(s: string): (r: string)
    ensures |r| == |s|
    ensures forall i :: 0 <= i < |s| ==> r[i] == ToLower(s[i])
    ensures NoUpper(r)
  {
    if s == [] then [] else [ToLower(s[0])] + Lower(s[1..])
  }

  /** The upper-case counterpart of `Lower`. */
  function Upper(s: string): (r: string)
    ensures |r| == |s|
    ensures forall i :: 0 <= i < |s| ==> r[i] == ToUpper(s[i])
  {
    if s == [] then [] else [ToUpper(s[0])] + Upper(s[1..])
  }

  /** `Str::ucfirst`: upper-case the first character only. */
  function UcFirst(s: string): (r: string)
    ensures |r| == |s|
    ensures |s| > 0 ==> r[0] == ToUpper(s[0]) && r[1..] == s[1..]
  {
    if s == [] then [] else [ToUpper(s[0])] + s[1..]
  }

  /** PHP's `lcfirst`: lower-case the first character only. */
  function LcFirst(s: string): (r: string)
    ensures |r| == |s|
    ensures |s| > 0 ==> r[0] == ToLower(s[0]) && r[1..] == s[1..]
  {
    if s == [] then [] else [ToLower(s[0])] + s[1..]
  }

  lemma ToLowerOfToUpper(c: char)
    ensures ToLower(ToUpper(c)) == ToLower(c)
  {
  }

  lemma ToUpperOfToLowerOfToUpper(c: char)
    ensures ToUpper(ToLower(ToUpper(c))) == ToUpper(c)
  {
  }

  /** Lower-casing twice is lower-casing once. */
  lemma {:induction false} LowerIdempotent(s: string)
    ensures Lower(Lower(s)) == Lower(s)
  {
    if s != [] {
      LowerIdempotent(s[1..]);
      assert Lower(s)[1..] == Lower(s[1..]);
    }
  }

  /** A string without upper-case letters is its own lower-case form. */
  lemma {:induction false} LowerOfNoUpper(s: string)
    requires NoUpper(s)
    ensures Lower(s) == s
  {
    if s != [] {
      LowerOfNoUpper(s[1..]);
    }
  }

  /** Lower-casing forgets any earlier upper-casing. */
  lemma {:induction false} LowerOfUpper(s: string)
    ensures Lower(Upper(s)) == Lower(s)
  {
    if s != [] {
      LowerOfUpper(s[1..]);
      assert Upper(s)[1..] == Upper(s[1..]);
    }
  }

  lemma {:induction false} LowerAppend(a: string, b: string)
    ensures Lower(a + b) == Lower(a) + Lower(b)
  {
    if a != [] {
      assert (a + b)[0] == a[0] && (a + b)[1..] == a[1..] + b;
      LowerAppend(a[1..], b);
      calc {
        Lower(a + b);
        [ToLower(a[0])] + Lower(a[1..] + b);
        [ToLower(a[0])] + (Lower(a[1..]) + Lower(b));
        ([ToLower(a[0])] + Lower(a[1..])) + Lower(b);
      }
    } else {
      assert a + b == b;
    }
  }
}
