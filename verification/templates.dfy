/** `string.Template.substitute` with the one-entry mapping `{'wafer': ...}`
    that `combine_text_file_with_result_grid` passes (scripts/main.py), and the
    round trip it completes with the extractor's `str.replace`. */
module Templates {
  import opened Results
  import opened Text

  /** A character that may start a placeholder name: the ASCII letters and `_`. */
  predicate IsIdentStart(ch: char) {
    ('a' <= ch <= 'z') || ('A' <= ch <= 'Z') || ch == '_'
  }

  /** A character that may continue a placeholder name. */
  predicate IsIdentChar(ch: char) {
    IsIdentStart(ch) || ('0' <= ch <= '9')
  }

  /** The length of the longest prefix of `s` made of name characters: the
      name pattern is matched greedily. */
  function IdentLength(s: string): (n: nat)
    ensures n <= |s|
    ensures forall k :: 0 <= k < n ==> IsIdentChar(s[k])
    ensures n == |s| || !IsIdentChar(s[n])
    decreases |s|
  {
    if |s| > 0 && IsIdentChar(s[0]) then 1 + IdentLength(s[1..]) else 0
  }

  /** The only name the mapping knows. */
  const Name: string := "wafer"

  /** The placeholder the extractor leaves in place of the grid. */
  const Placeholder: string := "$wafer"

  datatype TemplateError =
    | InvalidPlaceholder(index: nat)  // `ValueError`: a `$` that starts no placeholder
    | UnknownName(name: string)       // `KeyError`: a placeholder other than `wafer`

  /** `Template(t).substitute({'wafer': value})`, for a template whose first
      character is at index `at` of the whole text. Placeholders are replaced
      left to right: `$$` by `$`, `$wafer` and `${wafer}` by `value`; the first
      `$` that starts no placeholder, or starts one with another name, raises. */
  function SubstituteAt(t: string, at: nat, value: string): (r: Result<string, TemplateError>)
    decreases |t|
  {
    if |t| == 0 then Ok("")
    else if t[0] != '$' then
      var rest :- SubstituteAt(t[1..], at + 1, value);
      Ok([t[0]] + rest)
    else if |t| >= 2 && t[1] == '$' then
      var rest :- SubstituteAt(t[2..], at + 2, value);
      Ok("$" + rest)
    else if |t| >= 2 && IsIdentStart(t[1]) then
      var n := IdentLength(t[1..]);
      if t[1..1 + n] != Name then Err(UnknownName(t[1..1 + n]))
      else
        var rest :- SubstituteAt(t[1 + n..], at + 1 + n, value);
        Ok(value + rest)
    else if |t| >= 3 && t[1] == '{' && IsIdentStart(t[2])
            && 2 + IdentLength(t[2..]) < |t| && t[2 + IdentLength(t[2..])] == '}' then
      var n := IdentLength(t[2..]);
      if t[2..2 + n] != Name then Err(UnknownName(t[2..2 + n]))
      else
        var rest :- SubstituteAt(t[3 + n..], at + 3 + n, value);
        Ok(value + rest)
    else Err(InvalidPlaceholder(at))
  }

  /** `Template(t).substitute({'wafer': value})`. */
  function Substitute(t: string, value: string): (r: Result<string, TemplateError>)
    ensures '$' !in t ==> r == Ok(t)
  {
    assert '$' !in t ==> SubstituteAt(t, 0, value) == Ok(t) by {
      if '$' !in t {
        SubstituteNoDollar(t, 0, value);
      }
    }
    SubstituteAt(t, 0, value)
  }

  /** `r` with `a` put in front of its text, or the same error. */
  function Prepend(a: string, r: Result<string, TemplateError>): Result<string, TemplateError> {
    if r.Ok? then Ok(a + r.value) else r
  }

  /** A character other than `$` is copied through. */
  lemma SubstituteCons(ch: char, t: string, at: nat, value: string)
    requires ch != '$'
    ensures SubstituteAt([ch] + t, at, value) == Prepend([ch], SubstituteAt(t, at + 1, value))
  {
    assert ([ch] + t)[1..] == t;
  }

  /** Putting `a` and then `b` in front is putting `a + b` in front. */
  lemma PrependTwice(a: string, b: string, r: Result<string, TemplateError>)
    ensures Prepend(a, Prepend(b, r)) == Prepend(a + b, r)
  {
    if r.Ok? {
      assert a + (b + r.value) == (a + b) + r.value;
    }
  }

  /** A text without `$` is its own substitution. */
  lemma {:induction false} SubstituteNoDollar(t: string, at: nat, value: string)
    requires '$' !in t
    ensures SubstituteAt(t, at, value) == Ok(t)
    decreases |t|
  {
    if |t| > 0 {
      assert t == [t[0]] + t[1..];
      SubstituteNoDollar(t[1..], at + 1, value);
      SubstituteCons(t[0], t[1..], at, value);
    }
  }

  /** Text before the first `$` is copied through unchanged. */
  lemma {:induction false} SubstitutePrefix(a: string, t: string, at: nat, value: string)
    requires '$' !in a
    ensures SubstituteAt(a + t, at, value) == Prepend(a, SubstituteAt(t, at + |a|, value))
    decreases |a|
  {
    if |a| > 0 {
      assert a + t == [a[0]] + (a[1..] + t);
      SubstituteCons(a[0], a[1..] + t, at, value);
      SubstitutePrefix(a[1..], t, at + 1, value);
      PrependTwice([a[0]], a[1..], SubstituteAt(t, at + |a|, value));
      assert a == [a[0]] + a[1..];
    } else {
      assert a + t == t;
      var r := SubstituteAt(t, at, value);
      if r.Ok? {
        assert a + r.value == r.value;
      }
    }
  }

  /** A name followed by a character that cannot continue it is matched in
      full. */
  lemma {:induction false} IdentLengthOfName(name: string, x: string)
    requires forall k :: 0 <= k < |name| ==> IsIdentChar(name[k])
    requires |x| == 0 || !IsIdentChar(x[0])
    ensures IdentLength(name + x) == |name|
    decreases |name|
  {
    if |name| > 0 {
      assert (name + x)[1..] == name[1..] + x;
      IdentLengthOfName(name[1..], x);
    } else {
      assert name + x == x;
    }
  }

  /** A placeholder name: `[_a-zA-Z][_a-zA-Z0-9]*`. */
  predicate IsName(name: string) {
    |name| > 0 && IsIdentStart(name[0]) && forall k :: 0 <= k < |name| ==> IsIdentChar(name[k])
  }

  /** `$name` followed by a character that cannot continue the name stands
      for the value when the name is `wafer` and raises `KeyError` otherwise. */
  lemma NamedPlaceholder(name: string, x: string, at: nat, value: string)
    requires IsName(name)
    requires |x| == 0 || !IsIdentChar(x[0])
    ensures SubstituteAt("$" + name + x, at, value)
            == if name == Name then Prepend(value, SubstituteAt(x, at + 1 + |name|, value))
               else Err(UnknownName(name))
  {
    var s := "$" + name + x;
    assert s[1..] == name + x;
    IdentLengthOfName(name, x);
    assert s[1..1 + |name|] == name;
    assert s[1 + |name|..] == x;
  }

  /** `${name}` likewise. */
  lemma BracedPlaceholder(name: string, x: string, at: nat, value: string)
    requires IsName(name)
    ensures SubstituteAt("${" + name + "}" + x, at, value)
            == if name == Name then Prepend(value, SubstituteAt(x, at + 3 + |name|, value))
               else Err(UnknownName(name))
  {
    var s := "${" + name + "}" + x;
    assert s[2..] == name + ("}" + x);
    IdentLengthOfName(name, "}" + x);
    assert s[2 + |name|] == '}';
    assert s[2..2 + |name|] == name;
    assert s[3 + |name|..] == x;
  }

  /** The escape `$$` stands for one `$`. */
  lemma EscapedDollar(t: string, at: nat, value: string)
    ensures SubstituteAt("$$" + t, at, value) == Prepend("$", SubstituteAt(t, at + 2, value))
  {
    assert ("$$" + t)[2..] == t;
  }

  /** The template the binary-record path returns, `$wafer`, substitutes to the
      value itself. */
  lemma PlaceholderAlone(value: string)
    ensures Substitute(Placeholder, value) == Ok(value)
  {
    NamedPlaceholder(Name, "", 0, value);
    assert Placeholder == "$" + Name + "";
    assert value + "" == value;
  }

  /** A lone `$`, or an unclosed brace, raises `ValueError` at its index, and a
      placeholder with another name raises `KeyError`. */
  lemma SubstituteRejects(value: string)
    ensures Substitute("$", value) == Err(InvalidPlaceholder(0))
    ensures Substitute("a $ b", value) == Err(InvalidPlaceholder(2))
    ensures Substitute("$wafers", value) == Err(UnknownName("wafers"))
  {
    SubstitutePrefix("a ", "$ b", 0, value);
    assert "a $ b" == "a " + "$ b";
    NamedPlaceholder("wafers", "", 0, value);
    assert "$wafers" == "$" + "wafers" + "";
  }

  /** `pat` occurs in `t` at `i` and the next character could continue a
      placeholder name. */
  predicate FollowedByName(t: string, pat: string, i: int) {
    OccursAt(t, pat, i) && i + |pat| < |t| && IsIdentChar(t[i + |pat|])
  }

  /** Substituting a value into the template made by `str.replace` of the
      grid text with `$wafer` is `str.replace` of the grid text with that
      value, for a text without `$` in which no occurrence of the grid text
      runs straight into a name character (which would lengthen the
      placeholder's name). */
  lemma {:induction false} ReplaceThenSubstitute(t: string, block: string, at: nat, value: string)
    requires |block| > 0
    requires '$' !in t
    requires forall i :: 0 <= i <= |t| ==> !FollowedByName(t, block, i)
    ensures SubstituteAt(ReplaceAll(t, block, Placeholder), at, value) == Ok(ReplaceAll(t, block, value))
    decreases |t|
  {
    if |t| < |block| {
      SubstituteNoDollar(t, at, value);
    } else if t[..|block|] == block {
      var tail := t[|block|..];
      NotFollowedByNameSuffix(t, block, |block|);
      ReplaceThenSubstitute(tail, block, at + 6, value);
      ReplaceAtFront(t, block, at, value);
    } else {
      NotFollowedByNameSuffix(t, block, 1);
      ReplaceThenSubstitute(t[1..], block, at + 1, value);
      var x := ReplaceAll(t[1..], block, Placeholder);
      assert ReplaceAll(t, block, Placeholder) == [t[0]] + x;
      SubstituteCons(t[0], x, at, value);
    }
  }

  /** The round trip of the text path: cutting the grid text out and
      substituting the same grid text back gives the text again. */
  lemma RoundTrip(t: string, block: string)
    requires |block| > 0
    requires '$' !in t
    requires forall i :: 0 <= i <= |t| ==> !FollowedByName(t, block, i)
    ensures Substitute(ReplaceAll(t, block, Placeholder), block) == Ok(t)
  {
    ReplaceThenSubstitute(t, block, 0, block);
    ReplaceBySelf(t, block);
  }

  /** The step of the substitution where the text starts with the grid text. */
  lemma ReplaceAtFront(t: string, block: string, at: nat, value: string)
    requires |block| > 0 && |t| >= |block| && t[..|block|] == block
    requires !FollowedByName(t, block, 0)
    requires SubstituteAt(ReplaceAll(t[|block|..], block, Placeholder), at + 6, value)
             == Ok(ReplaceAll(t[|block|..], block, value))
    ensures SubstituteAt(ReplaceAll(t, block, Placeholder), at, value) == Ok(ReplaceAll(t, block, value))
  {
    var tail := t[|block|..];
    var x := ReplaceAll(tail, block, Placeholder);
    NameCannotContinue(t, block);
    PlaceholderStep(value, ReplaceAll(tail, block, value), x, at);
    assert ReplaceAll(t, block, Placeholder) == "$" + Name + x;
  }

  /** A placeholder in front of text that substitutes to `tail` gives the
      value followed by `tail`. */
  lemma PlaceholderStep(value: string, tail: string, x: string, at: nat)
    requires |x| == 0 || !IsIdentChar(x[0])
    requires SubstituteAt(x, at + 6, value) == Ok(tail)
    ensures SubstituteAt("$" + Name + x, at, value) == Ok(value + tail)
  {
    NamedPlaceholder(Name, x, at, value);
  }

  /** After an occurrence at the front that does not run into a name
      character, the rest of the replaced text cannot continue the
      placeholder's name. */
  lemma NameCannotContinue(t: string, block: string)
    requires |block| > 0 && |t| >= |block| && t[..|block|] == block
    requires !FollowedByName(t, block, 0)
    ensures var x := ReplaceAll(t[|block|..], block, Placeholder);
            |x| == 0 || !IsIdentChar(x[0])
  {
    var tail := t[|block|..];
    ReplaceAllFirst(tail, block, Placeholder);
    if |tail| > 0 {
      assert OccursAt(t, block, 0);
      assert t[|block|] == tail[0];
    }
  }

  /** No occurrence in a suffix runs into a name character when none in the
      whole text does. */
  lemma NotFollowedByNameSuffix(t: string, block: string, k: int)
    requires 0 <= k <= |t|
    requires forall i :: 0 <= i <= |t| ==> !FollowedByName(t, block, i)
    ensures forall i :: 0 <= i <= |t[k..]| ==> !FollowedByName(t[k..], block, i)
  {
    forall i | 0 <= i <= |t[k..]| ensures !FollowedByName(t[k..], block, i) {
      if FollowedByName(t[k..], block, i) {
        assert t[i + k..i + k + |block|] == t[k..][i..i + |block|];
        assert FollowedByName(t, block, i + k);
      }
    }
  }

  /** After `str.replace`, the text starts with the replacement or with the
      text's own first character. */
  lemma ReplaceAllFirst(s: string, pat: string, rep: string)
    requires |pat| > 0 && |rep| > 0
    ensures |s| > 0 <==> |ReplaceAll(s, pat, rep)| > 0
    ensures |s| > 0 ==> ReplaceAll(s, pat, rep)[0] == rep[0] || ReplaceAll(s, pat, rep)[0] == s[0]
  {
  }

  /** `combine_text_file_with_result_grid`: the template with the grid text
      put in for the placeholder. */
  function Combine(gridText: string, template: string): (r: Result<string, TemplateError>)
    ensures template == Placeholder ==> r == Ok(gridText)
  {
    PlaceholderAlone(gridText);
    Substitute(template, gridText)
  }
}
