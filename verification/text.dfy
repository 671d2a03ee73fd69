/** String helpers with Python's semantics: `str.split` on one separator
    character, `str.join`, `str.strip` without arguments, and `str.replace`. */
module Text {

  /** `s.split(sep)`: the pieces between separators, at least one (possibly
      empty) piece even for the empty string. */
  function Split(s: string, sep: char): (parts: seq<string>)
    ensures |parts| >= 1
    ensures forall k :: 0 <= k < |parts| ==> sep !in parts[k]
    decreases |s|
  {
    if |s| == 0 then [""]
    else
      var rest := Split(s[1..], sep);
      if s[0] == sep then [""] + rest
      else [[s[0]] + rest[0]] + rest[1..]
  }

  /** `sep.join(parts)`. */
  function Join(parts: seq<string>, sep: char): string
    decreases |parts|
  {
    if |parts| == 0 then ""
    else if |parts| == 1 then parts[0]
    else parts[0] + [sep] + Join(parts[1..], sep)
  }

  lemma JoinCons(a: string, rest: seq<string>, sep: char)
    requires |rest| >= 1
    ensures Join([a] + rest, sep) == a + [sep] + Join(rest, sep)
  {
    assert ([a] + rest)[1..] == rest;
  }

  /** Joining the pieces of a split gives back the text. */
  lemma {:induction false} JoinSplit(s: string, sep: char)
    ensures Join(Split(s, sep), sep) == s
    decreases |s|
  {
    if |s| > 0 {
      var rest := Split(s[1..], sep);
      JoinSplit(s[1..], sep);
      if s[0] == sep {
        JoinCons("", rest, sep);
        assert s == [sep] + s[1..];
      } else if |rest| == 1 {
        assert s == [s[0]] + s[1..];
      } else {
        JoinCons([s[0]] + rest[0], rest[1..], sep);
        JoinCons(rest[0], rest[1..], sep);
        assert rest == [rest[0]] + rest[1..];
        assert s == [s[0]] + s[1..];
      }
    }
  }

  /** Splitting text that starts with a separator-free piece. */
  lemma {:induction false} SplitAppend(a: string, s: string, sep: char)
    requires sep !in a
    ensures Split(a + s, sep) == [a + Split(s, sep)[0]] + Split(s, sep)[1..]
    decreases |a|
  {
    if |a| > 0 {
      var rest := Split(s, sep);
      SplitAppend(a[1..], s, sep);
      assert (a + s)[1..] == a[1..] + s;
      assert (a + s)[0] == a[0] && a[0] != sep;
      var inner := Split(a[1..] + s, sep);
      assert inner == [a[1..] + rest[0]] + rest[1..];
      assert Split(a + s, sep) == [[a[0]] + inner[0]] + inner[1..];
      assert [a[0]] + (a[1..] + rest[0]) == a + rest[0];
    } else {
      assert a + s == s;
      assert a + Split(s, sep)[0] == Split(s, sep)[0];
      assert Split(s, sep) == [Split(s, sep)[0]] + Split(s, sep)[1..];
    }
  }

  /** Splitting the join of separator-free pieces gives back the pieces. */
  lemma {:induction false} SplitJoin(parts: seq<string>, sep: char)
    requires |parts| >= 1
    requires forall k :: 0 <= k < |parts| ==> sep !in parts[k]
    ensures Split(Join(parts, sep), sep) == parts
    decreases |parts|
  {
    if |parts| == 1 {
      SplitAppend(parts[0], "", sep);
      assert parts[0] + "" == parts[0];
    } else {
      var tail := Join(parts[1..], sep);
      SplitJoin(parts[1..], sep);
      assert Join(parts, sep) == parts[0] + ([sep] + tail);
      SplitAppend(parts[0], [sep] + tail, sep);
      assert ([sep] + tail)[1..] == tail;
      assert Split([sep] + tail, sep) == [""] + parts[1..];
      assert parts[0] + "" == parts[0];
      assert parts == [parts[0]] + parts[1..];
    }
  }

  /** The characters Python's `str.isspace` accepts, which `str.strip()`
      removes from both ends. */
  const Spaces: set<char> :=
    {'\t', '\n', '\U{0B}', '\U{0C}', '\r', '\U{1C}', '\U{1D}', '\U{1E}', '\U{1F}', ' ',
     '\U{85}', '\U{A0}', '\U{1680}',
     '\U{2000}', '\U{2001}', '\U{2002}', '\U{2003}', '\U{2004}', '\U{2005}', '\U{2006}',
     '\U{2007}', '\U{2008}', '\U{2009}', '\U{200A}',
     '\U{2028}', '\U{2029}', '\U{202F}', '\U{205F}', '\U{3000}'}

  predicate IsSpace(ch: char) {
    ch in Spaces
  }

  /** `s.lstrip()`: the longest suffix of `s` that does not start with a space. */
  function TrimLeft(s: string): (r: string)
    ensures |r| <= |s| && r == s[|s| - |r|..]
    ensures forall k :: 0 <= k < |s| - |r| ==> IsSpace(s[k])
    ensures |r| > 0 ==> !IsSpace(r[0])
    decreases |s|
  {
    if |s| > 0 && IsSpace(s[0]) then TrimLeft(s[1..]) else s
  }

  /** `s.rstrip()`: the longest prefix of `s` that does not end with a space. */
  function TrimRight(s: string): (r: string)
    ensures |r| <= |s| && r == s[..|r|]
    ensures forall k :: |r| <= k < |s| ==> IsSpace(s[k])
    ensures |r| > 0 ==> !IsSpace(r[|r| - 1])
    decreases |s|
  {
    if |s| > 0 && IsSpace(s[|s| - 1]) then TrimRight(s[..|s| - 1]) else s
  }

  /** `s.strip()`. */
  function Strip(s: string): (r: string)
    ensures |r| <= |s|
    ensures |r| > 0 ==> !IsSpace(r[0]) && !IsSpace(r[|r| - 1])
    ensures |r| == 0 <==> forall k :: 0 <= k < |s| ==> IsSpace(s[k])
    ensures (|s| == 0 || (!IsSpace(s[0]) && !IsSpace(s[|s| - 1]))) ==> r == s
  {
    var left := TrimLeft(s);
    var r := TrimRight(left);
    assert |r| == 0 ==> |left| == 0;
    r
  }

  /** `str.strip()` removes only spaces, and only from the two ends: the
      result is a piece of `s` with nothing but spaces around it. */
  lemma StripSpec(s: string) returns (i: nat)
    ensures i + |Strip(s)| <= |s| && Strip(s) == s[i..i + |Strip(s)|]
    ensures forall k :: 0 <= k < i ==> IsSpace(s[k])
    ensures forall k :: i + |Strip(s)| <= k < |s| ==> IsSpace(s[k])
  {
    var left := TrimLeft(s);
    i := |s| - |left|;
    RightOfSuffix(s, i, TrimRight(left));
  }

  /** Trimming the right end of the suffix `s[i..]`, as a piece of `s`. */
  lemma RightOfSuffix(s: string, i: nat, r: string)
    requires i <= |s| && r == TrimRight(s[i..])
    ensures i + |r| <= |s| && r == s[i..i + |r|]
    ensures forall k :: i + |r| <= k < |s| ==> IsSpace(s[k])
  {
    var left := s[i..];
    assert r == left[..|r|];
    assert left[..|r|] == s[i..i + |r|];
    forall k | i + |r| <= k < |s| ensures IsSpace(s[k]) {
      assert s[k] == left[k - i];
    }
  }

  /** Stripping twice strips nothing more. */
  lemma StripIdempotent(s: string)
    ensures Strip(Strip(s)) == Strip(s)
  {
  }

  /** A character missing from a string is missing from its strip. */
  lemma StripInside(s: string, ch: char)
    requires ch !in s
    ensures ch !in Strip(s)
  {
    var i := StripSpec(s);
    var r := Strip(s);
    forall k | 0 <= k < |r| ensures r[k] != ch {
      assert r[k] == s[i + k];
    }
  }

  /** A join starts with its first piece. */
  lemma {:induction false} JoinStartsWithFirst(parts: seq<string>, sep: char)
    requires |parts| >= 1
    ensures |Join(parts, sep)| >= |parts[0]|
    ensures Join(parts, sep)[..|parts[0]|] == parts[0]
  {
  }

  /** `s.replace(pat, rep)`: every non-overlapping occurrence of `pat`, scanning
      from the left, replaced by `rep`. */
  function ReplaceAll(s: string, pat: string, rep: string): (r: string)
    requires |pat| > 0
    ensures !Occurs(s, pat) ==> r == s
    decreases |s|
  {
    if |s| < |pat| then s
    else if s[..|pat|] == pat then
      assert OccursAt(s, pat, 0);
      rep + ReplaceAll(s[|pat|..], pat, rep)
    else
      assert Occurs(s[1..], pat) ==> Occurs(s, pat) by {
        if Occurs(s[1..], pat) {
          var i :| 0 <= i <= |s[1..]| && OccursAt(s[1..], pat, i);
          assert s[i + 1..i + 1 + |pat|] == s[1..][i..i + |pat|];
          assert OccursAt(s, pat, i + 1);
        }
      }
      [s[0]] + ReplaceAll(s[1..], pat, rep)
  }

  /** `pat` occurs in `s` at index `i`. */
  predicate OccursAt(s: string, pat: string, i: int) {
    0 <= i && i + |pat| <= |s| && s[i..i + |pat|] == pat
  }

  /** `pat in s`. */
  predicate Occurs(s: string, pat: string) {
    exists i | 0 <= i <= |s| :: OccursAt(s, pat, i)
  }

  /** Replacing a pattern by itself changes nothing. */
  lemma {:induction false} ReplaceBySelf(s: string, pat: string)
    requires |pat| > 0
    ensures ReplaceAll(s, pat, pat) == s
    decreases |s|
  {
    if |s| < |pat| {
    } else if s[..|pat|] == pat {
      ReplaceBySelf(s[|pat|..], pat);
      assert s == s[..|pat|] + s[|pat|..];
    } else {
      ReplaceBySelf(s[1..], pat);
      assert s == [s[0]] + s[1..];
    }
  }
}
