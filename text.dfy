/** Ruby's `String#strip`, which the create, rename and add-to-do handlers
    apply to their form field. */
module Text {

  /** Ruby's whitespace for `strip`: NUL, horizontal tab, line feed,
      vertical tab, form feed, carriage return and space. */
  predicate IsSpace(c: char) {
    c == '\0' || c == '\t' || c == '\n' || c == '\U{000B}' || c == '\U{000C}' || c == '\r' || c == ' '
  }

  /** True when `s` neither starts nor ends with whitespace. */
  predicate Trimmed(s: string) {
    s == [] || (!IsSpace(s[0]) && !IsSpace(s[|s| - 1]))
  }

  /** Drops the leading whitespace: what is left is a suffix of `s`, and
      everything dropped was whitespace. */
  function TrimStart(s: string): (r: string)
    ensures |r| <= |s| && r == s[|s| - |r|..]
    ensures r == [] || !IsSpace(r[0])
    ensures forall k :: 0 <= k < |s| - |r| ==> IsSpace(s[k])
  {
    if s != [] && IsSpace(s[0]) then TrimStart(s[1..]) else s
  }

  /** Drops the trailing whitespace: what is left is a prefix of `s`, and
      everything dropped was whitespace. */
  function TrimEnd(s: string): (r: string)
    ensures |r| <= |s| && r == s[..|r|]
    ensures r == [] || !IsSpace(r[|r| - 1])
    ensures forall k :: |r| <= k < |s| ==> IsSpace(s[k])
  {
    if s != [] && IsSpace(s[|s| - 1]) then TrimEnd(s[..|s| - 1]) else s
  }

  /** The number of whitespace characters `strip` removes from the front. */
  function Leading(s: string): nat {
    |s| - |TrimStart(s)|
  }

  /** `String#strip`: the infix of `s` left after removing whitespace at both
      ends. It neither starts nor ends with whitespace, it is empty exactly
      when `s` is all whitespace, and it leaves an already trimmed string
      alone. */
  function Strip(s: string): (r: string)
    ensures Trimmed(r)
    ensures Leading(s) + |r| <= |s| && r == s[Leading(s)..Leading(s) + |r|]
    ensures forall k :: 0 <= k < Leading(s) ==> IsSpace(s[k])
    ensures forall k :: Leading(s) + |r| <= k < |s| ==> IsSpace(s[k])
    ensures r == [] <==> forall k :: 0 <= k < |s| ==> IsSpace(s[k])
    ensures Trimmed(s) ==> r == s
  {
    var t := TrimStart(s);
    var r := TrimEnd(t);
    assert r == s[Leading(s)..Leading(s) + |r|];
    r
  }

  /** One space on each side of a trimmed string is exactly what `strip`
      takes away. */
  lemma StripPadded(t: string)
    requires Trimmed(t)
    ensures Strip(" " + t + " ") == t
  {
    var padded := " " + t + " ";
    assert padded[0] == ' ' && padded[1..] == t + " ";
    if t == [] {
      assert forall k :: 0 <= k < |padded| ==> IsSpace(padded[k]);
    } else {
      assert (t + " ")[0] == t[0];
      assert TrimStart(t + " ") == t + " ";
      assert TrimStart(padded) == t + " ";
      assert (t + " ")[..|t|] == t;
      assert TrimEnd(t + " ") == TrimEnd(t) == t;
    }
  }
}
