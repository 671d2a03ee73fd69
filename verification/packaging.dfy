/** The version bump of the packaging script: the answers it accepts, the
    place letter it translates, and the new version string it computes from
    the current one. Python's `int` and `str` on decimal strings are written
    out, since the bump goes through both. */
module Packaging {
  import opened Results
  import opened Text

  datatype PackagingError =
    | InvalidInput(answer: string)  // InvalidInputException
    | UnknownPlace(place: string)   // KeyError from the translation dict
    | MissingComponent(index: nat)  // IndexError from the version list
    | NotAnInteger(text: string)    // ValueError from int()

  // ----- Answers -----

  /** `is_invalid_value`: the answer is not one of the options. */
  predicate IsInvalidValue(value: string, options: set<string>) {
    value !in options
  }

  /** `input_validation`: rejects an answer outside the options, otherwise
      does nothing. */
  function InputValidation(answer: string, options: set<string>): (r: Result<(), PackagingError>)
    ensures r.Err? <==> answer !in options
    ensures r.Err? ==> r.error == InvalidInput(answer)
  {
    if IsInvalidValue(answer, options) then Err(InvalidInput(answer)) else Ok(())
  }

  /** The place letters `ask_for_version` accepts. */
  const Places: set<string> := {"h", "m", "l"}

  /** `translate_place_from_str_to_int`: `h`, `m` and `l` name the major,
      minor and patch components. */
  function TranslatePlace(place: string): (r: Result<nat, PackagingError>)
    ensures r.Ok? <==> place in Places
    ensures r.Ok? ==> r.value < 3
    ensures r.Err? ==> r.error == UnknownPlace(place)
  {
    if place == "h" then Ok(0)
    else if place == "m" then Ok(1)
    else if place == "l" then Ok(2)
    else Err(UnknownPlace(place))
  }

  /** The three letters name three different places, in order. */
  lemma TranslatePlaceOrder()
    ensures TranslatePlace("h") == Ok(0)
    ensures TranslatePlace("m") == Ok(1)
    ensures TranslatePlace("l") == Ok(2)
  {
  }

  /** An answer that passes validation against the place letters always
      translates: `ask_for_version` never reaches the KeyError. */
  lemma ValidatedPlaceTranslates(place: string)
    requires InputValidation(place, Places).Ok?
    ensures TranslatePlace(place).Ok?
  {
  }

  // ----- Python's int() and str() on decimal strings -----

  predicate IsDigit(ch: char) {
    '0' <= ch <= '9'
  }

  function DigitValue(ch: char): nat
    requires IsDigit(ch)
  {
    (ch - '0') as nat
  }

  function DigitChar(d: nat): (ch: char)
    requires d < 10
    ensures IsDigit(ch) && DigitValue(ch) == d
  {
    ('0' as int + d) as char
  }

  /** Decimal digits, each underscore between two digits: the body `int`
      accepts after the sign. */
  predicate IsDigitBody(s: string) {
    && |s| > 0
    && IsDigit(s[0])
    && IsDigit(s[|s| - 1])
    && (forall k :: 0 <= k < |s| ==> IsDigit(s[k]) || s[k] == '_')
    && (forall k :: 0 <= k < |s| - 1 && s[k] == '_' ==> s[k + 1] != '_')
  }

  /** The value of the digits of `s`, underscores skipped. */
  function DigitsValue(s: string): nat
    requires forall k :: 0 <= k < |s| ==> IsDigit(s[k]) || s[k] == '_'
  {
    if |s| == 0 then 0
    else
      var init := s[..|s| - 1];
      assert forall k :: 0 <= k < |init| ==> init[k] == s[k];
      var last := s[|s| - 1];
      if last == '_' then DigitsValue(init) else DigitsValue(init) * 10 + DigitValue(last)
  }

  /** `int(s)`: surrounding whitespace, an optional sign, then digits. */
  function ParseInt(s: string): (r: Result<int, PackagingError>)
    ensures r.Err? ==> r.error == NotAnInteger(s)
  {
    match ParseSigned(Strip(s))
    case Some(n) => Ok(n)
    case None => Err(NotAnInteger(s))
  }

  /** An optional sign, then digits. */
  function ParseSigned(t: string): Option<int> {
    var body := if |t| > 0 && (t[0] == '-' || t[0] == '+') then t[1..] else t;
    if IsDigitBody(body) then
      var n: int := DigitsValue(body);
      Some(if |t| > 0 && t[0] == '-' then -n else n)
    else None
  }

  /** The decimal digits of `n`. */
  function NatToString(n: nat): (s: string)
    ensures |s| > 0
    ensures forall k :: 0 <= k < |s| ==> IsDigit(s[k])
  {
    if n < 10 then [DigitChar(n)] else NatToString(n / 10) + [DigitChar(n % 10)]
  }

  /** `str(n)`: a minus sign for a negative number, then its digits. */
  function IntToString(n: int): (s: string) {
    if n < 0 then "-" + NatToString(-n) else NatToString(n)
  }

  /** `str` writes no leading zero: the first digit is `0` only for zero
      itself. */
  lemma {:induction false} NoLeadingZero(n: nat)
    ensures NatToString(n)[0] == '0' <==> n == 0
  {
    if n >= 10 {
      NoLeadingZero(n / 10);
      assert NatToString(n)[0] == NatToString(n / 10)[0];
    }
  }

  /** Reading back the digits `str` writes gives the number. */
  lemma {:induction false} NatToStringValue(n: nat)
    ensures DigitsValue(NatToString(n)) == n
  {
    var s := NatToString(n);
    if n >= 10 {
      NatToStringValue(n / 10);
      assert s[..|s| - 1] == NatToString(n / 10);
    } else {
      assert s[..0] == [];
    }
  }

  /** `str` starts and ends with a character `strip` keeps. */
  lemma IntToStringEnds(n: int)
    ensures Strip(IntToString(n)) == IntToString(n)
  {
    var s := IntToString(n);
    assert !IsSpace(s[0]) && !IsSpace(s[|s| - 1]);
  }

  lemma SignedRoundTrip(n: int)
    ensures ParseSigned(IntToString(n)) == Some(n)
  {
    var s := IntToString(n);
    var digits := NatToString(if n < 0 then -n else n);
    NatToStringValue(if n < 0 then -n else n);
    if n < 0 {
      assert s[1..] == digits;
    }
  }

  /** `int(str(n)) == n` for every integer. */
  lemma IntRoundTrip(n: int)
    ensures ParseInt(IntToString(n)) == Ok(n)
  {
    IntToStringEnds(n);
    SignedRoundTrip(n);
  }

  /** Decimal digits without a leading zero, unless the number is zero. */
  predicate CanonicalDigits(d: string) {
    && |d| > 0
    && (forall k :: 0 <= k < |d| ==> IsDigit(d[k]))
    && (d[0] == '0' ==> |d| == 1)
  }

  /** The text `str` writes for an integer: no `+`, no `_`, no leading zero,
      and no `-0`. */
  predicate Canonical(t: string) {
    CanonicalDigits(t) || (|t| > 1 && t[0] == '-' && t[1] != '0' && CanonicalDigits(t[1..]))
  }

  lemma {:induction false} DigitsPositive(d: string)
    requires |d| > 0 && d[0] != '0'
    requires forall k :: 0 <= k < |d| ==> IsDigit(d[k])
    ensures DigitsValue(d) >= 1
    decreases |d|
  {
    if |d| > 1 {
      var init := d[..|d| - 1];
      assert forall k :: 0 <= k < |init| ==> init[k] == d[k];
      DigitsPositive(init);
    }
  }

  /** Canonical digits are what `str` writes for their value. */
  lemma {:induction false} CanonicalDigitsRoundTrip(d: string)
    requires CanonicalDigits(d)
    ensures NatToString(DigitsValue(d)) == d
    decreases |d|
  {
    var last := d[|d| - 1];
    if |d| == 1 {
      assert DigitChar(DigitValue(last)) == last;
    } else {
      var init := d[..|d| - 1];
      assert forall k :: 0 <= k < |init| ==> init[k] == d[k];
      DigitsPositive(init);
      CanonicalDigitsRoundTrip(init);
      var v := DigitsValue(d);
      assert v == DigitsValue(init) * 10 + DigitValue(last);
      assert v / 10 == DigitsValue(init) && v % 10 == DigitValue(last);
      assert DigitChar(DigitValue(last)) == last;
      assert d == init + [last];
    }
  }

  /** `str(n)` is always canonical. */
  lemma IntToStringCanonical(n: int)
    ensures Canonical(IntToString(n))
  {
    var m: nat := if n < 0 then -n else n;
    var digits := NatToString(m);
    NoLeadingZero(m);
    if n < 0 {
      var s := IntToString(n);
      assert s[1..] == digits;
      assert s[1] == digits[0];
    }
  }

  /** Canonical text reads as the number `str` writes it for. */
  lemma SignedCanonical(t: string)
    requires Canonical(t)
    ensures ParseSigned(t).Some?
    ensures IntToString(ParseSigned(t).value) == t
  {
    if CanonicalDigits(t) {
      assert IsDigitBody(t);
      CanonicalDigitsRoundTrip(t);
    } else {
      var body := t[1..];
      assert IsDigitBody(body);
      DigitsPositive(body);
      CanonicalDigitsRoundTrip(body);
      assert t == "-" + body;
    }
  }

  /** The other round trip: for a component whose stripped text is canonical,
      `str(int(s))` gives back the stripped text. So a version component that
      `str` could have written survives the bump's reading unchanged. */
  lemma ParseIntCanonical(s: string)
    requires Canonical(Strip(s))
    ensures ParseInt(s).Ok?
    ensures IntToString(ParseInt(s).value) == Strip(s)
  {
    SignedCanonical(Strip(s));
  }

  // ----- The version bump -----

  /** The components after the bumped one, all zero, up to three in all. */
  function Zeros(n: int): (zs: seq<string>)
    ensures |zs| == if n > 0 then n else 0
    ensures forall k :: 0 <= k < |zs| ==> zs[k] == "0"
  {
    seq(if n > 0 then n else 0, _ => "0")
  }

  /** `calculate_new_version`: split on dots, keep the components before the
      bumped one, add one to it, reset the ones after it to zero and drop
      any beyond the third. */
  function CalculateNewVersion(current: string, place: string): (r: Result<string, PackagingError>) {
    var parts := Split(current, '.');
    var p :- TranslatePlace(place);
    if p >= |parts| then Err(MissingComponent(p))
    else
      var n :- ParseInt(parts[p]);
      Ok(Join(NewComponents(parts, p, n), '.'))
  }

  /** The components of the new version. */
  function NewComponents(parts: seq<string>, p: nat, n: int): (c: seq<string>)
    requires p < |parts| && p < 3
    ensures |c| == 3 && c[..p] == parts[..p] && c[p] == IntToString(n + 1)
    ensures forall k :: p < k < 3 ==> c[k] == "0"
  {
    parts[..p] + [IntToString(n + 1)] + Zeros(2 - p)
  }

  /** Splitting the new version on dots gives back its components. */
  lemma SplitNewComponents(parts: seq<string>, p: nat, n: int)
    requires p < |parts| && p < 3
    requires forall k :: 0 <= k < |parts| ==> '.' !in parts[k]
    ensures Split(Join(NewComponents(parts, p, n), '.'), '.') == NewComponents(parts, p, n)
  {
    var c := NewComponents(parts, p, n);
    forall k | 0 <= k < |c| ensures '.' !in c[k] {
      if k < p {
        assert c[k] == c[..p][k] == parts[k];
      } else if k == p {
        NoDotInNumber(n + 1);
      }
    }
    SplitJoin(c, '.');
  }

  /** What a failed bump tells the caller. An unknown place letter is named;
      a missing component means the version has too few components for the
      place; a rejected component is the version's component at the place,
      and `int` rejects it. A version of three integers fails only on an
      unknown place letter. */
  lemma CalculateErrors(current: string, place: string)
    ensures CalculateNewVersion(current, place).Err? ==>
              match CalculateNewVersion(current, place).error
              case UnknownPlace(x) => x == place && place !in Places
              case MissingComponent(i) =>
                place in Places && TranslatePlace(place) == Ok(i) && |Split(current, '.')| <= i
              case NotAnInteger(t) =>
                place in Places && t == Split(current, '.')[TranslatePlace(place).value] && ParseInt(t).Err?
              case InvalidInput(_) => false
    ensures Triple(current).Some? ==> (CalculateNewVersion(current, place).Err? <==> place !in Places)
  {
    if Triple(current).Some? && place in Places {
      BumpIncreases(current, place);
    }
  }

  /** The pieces a successful bump is made of. */
  lemma CalculateUnfold(current: string, place: string) returns (p: nat, n: int)
    requires CalculateNewVersion(current, place).Ok?
    ensures TranslatePlace(place) == Ok(p)
    ensures p < |Split(current, '.')| && ParseInt(Split(current, '.')[p]) == Ok(n)
    ensures Split(CalculateNewVersion(current, place).value, '.') == NewComponents(Split(current, '.'), p, n)
  {
    var parts := Split(current, '.');
    p := TranslatePlace(place).value;
    n := ParseInt(parts[p]).value;
    assert CalculateNewVersion(current, place).value == Join(NewComponents(parts, p, n), '.');
    SplitNewComponents(parts, p, n);
  }

  /** A successful bump has exactly three components: the ones before the
      place unchanged, the one at the place one more than it was, written
      without leading zeros, and zeros after it. */
  lemma CalculateSpec(current: string, place: string)
    requires CalculateNewVersion(current, place).Ok?
    ensures TranslatePlace(place).Ok?
    ensures var parts := Split(current, '.');
            var p := TranslatePlace(place).value;
            var after := Split(CalculateNewVersion(current, place).value, '.');
            && p < |parts| && ParseInt(parts[p]).Ok?
            && |after| == 3
            && after[..p] == parts[..p]
            && after[p] == IntToString(ParseInt(parts[p]).value + 1)
            && ParseInt(after[p]) == Ok(ParseInt(parts[p]).value + 1)
            && forall k :: p < k < 3 ==> after[k] == "0"
  {
    var p, n := CalculateUnfold(current, place);
    BumpedComponents(Split(current, '.'), p, n);
  }

  /** The new components, read back. */
  lemma BumpedComponents(parts: seq<string>, p: nat, n: int)
    requires p < |parts| && p < 3
    ensures var after := NewComponents(parts, p, n);
            && |after| == 3
            && after[..p] == parts[..p]
            && after[p] == IntToString(n + 1)
            && ParseInt(after[p]) == Ok(n + 1)
            && forall k :: p < k < 3 ==> after[k] == "0"
  {
    IntRoundTrip(n + 1);
  }

  lemma NoDotInNumber(n: int)
    ensures '.' !in IntToString(n)
  {
    var s := IntToString(n);
    var digits := NatToString(if n < 0 then -n else n);
    if n < 0 {
      assert forall k :: 1 <= k < |s| ==> s[k] == digits[k - 1];
    }
  }

  /** The version as a triple of integers, when it is one. */
  function Triple(version: string): Option<(int, int, int)> {
    TripleOf(Split(version, '.'))
  }

  /** Three components, each an integer. */
  function TripleOf(parts: seq<string>): Option<(int, int, int)> {
    if |parts| != 3 then None
    else match (ParseInt(parts[0]), ParseInt(parts[1]), ParseInt(parts[2]))
      case (Ok(a), Ok(b), Ok(c)) => Some((a, b, c))
      case _ => None
  }

  /** Version order: major first, then minor, then patch. */
  predicate TripleLess(u: (int, int, int), v: (int, int, int)) {
    u.0 < v.0 || (u.0 == v.0 && (u.1 < v.1 || (u.1 == v.1 && u.2 < v.2)))
  }

  /** A triple bumped at a place. */
  function Bump(u: (int, int, int), p: nat): (v: (int, int, int))
    requires p < 3
    ensures TripleLess(u, v)
  {
    if p == 0 then (u.0 + 1, 0, 0)
    else if p == 1 then (u.0, u.1 + 1, 0)
    else (u.0, u.1, u.2 + 1)
  }

  function Component(u: (int, int, int), p: nat): int
    requires p < 3
  {
    if p == 0 then u.0 else if p == 1 then u.1 else u.2
  }

  /** The new components one by one. */
  lemma NewComponentsAt(parts: seq<string>, p: nat, n: int)
    requires p < |parts| && p < 3
    ensures var c := NewComponents(parts, p, n);
            && c[0] == (if p == 0 then IntToString(n + 1) else parts[0])
            && c[1] == (if p == 1 then IntToString(n + 1) else if p == 0 then "0" else parts[1])
            && c[2] == (if p == 2 then IntToString(n + 1) else "0")
  {
    var c := NewComponents(parts, p, n);
    if p > 0 {
      assert c[..p][0] == parts[..p][0];
    }
    if p > 1 {
      assert c[..p][1] == parts[..p][1];
    }
  }

  /** The new components read as the bumped triple. */
  lemma NewComponentsBump(parts: seq<string>, p: nat)
    requires TripleOf(parts).Some? && p < 3
    ensures TripleOf(NewComponents(parts, p, Component(TripleOf(parts).value, p)))
            == Some(Bump(TripleOf(parts).value, p))
  {
    var u := TripleOf(parts).value;
    var n := Component(u, p);
    TripleOfSpec(parts);
    NewComponentsAt(parts, p, n);
    ParseZero();
    BumpValues(u, p);
    BumpAt(parts, p, n, Bump(u, p));
  }

  lemma BumpValues(u: (int, int, int), p: nat)
    requires p < 3
    ensures p == 0 ==> Bump(u, p) == (Component(u, p) + 1, 0, 0)
    ensures p == 1 ==> Bump(u, p) == (u.0, Component(u, p) + 1, 0)
    ensures p == 2 ==> Bump(u, p) == (u.0, u.1, Component(u, p) + 1)
  {
  }

  lemma BumpAt(parts: seq<string>, p: nat, n: int, v: (int, int, int))
    requires p < |parts| && p < 3
    requires ParseInt("0") == Ok(0)
    requires var c := NewComponents(parts, p, n);
             && c[0] == (if p == 0 then IntToString(n + 1) else parts[0])
             && c[1] == (if p == 1 then IntToString(n + 1) else if p == 0 then "0" else parts[1])
             && c[2] == (if p == 2 then IntToString(n + 1) else "0")
    requires p == 0 ==> v == (n + 1, 0, 0)
    requires p == 1 ==> ParseInt(parts[0]) == Ok(v.0) && v.1 == n + 1 && v.2 == 0
    requires p == 2 ==> ParseInt(parts[0]) == Ok(v.0) && ParseInt(parts[1]) == Ok(v.1) && v.2 == n + 1
    ensures TripleOf(NewComponents(parts, p, n)) == Some(v)
  {
    var c := NewComponents(parts, p, n);
    IntRoundTrip(n + 1);
    TripleOfParts(c, v.0, v.1, v.2);
  }

  lemma ParseZero()
    ensures ParseInt("0") == Ok(0)
  {
    IntRoundTrip(0);
    assert IntToString(0) == "0";
  }

  lemma TripleOfParts(parts: seq<string>, x: int, y: int, z: int)
    requires |parts| == 3
    requires ParseInt(parts[0]) == Ok(x) && ParseInt(parts[1]) == Ok(y) && ParseInt(parts[2]) == Ok(z)
    ensures TripleOf(parts) == Some((x, y, z))
  {
  }

  lemma TripleOfSpec(parts: seq<string>)
    requires TripleOf(parts).Some?
    ensures |parts| == 3
    ensures ParseInt(parts[0]) == Ok(TripleOf(parts).value.0)
    ensures ParseInt(parts[1]) == Ok(TripleOf(parts).value.1)
    ensures ParseInt(parts[2]) == Ok(TripleOf(parts).value.2)
  {
  }


  /** For a version of three integers, every place letter bumps it to a
      strictly larger version of three integers: the bumped triple. */
  lemma BumpIncreases(current: string, place: string)
    requires Triple(current).Some? && place in Places
    ensures CalculateNewVersion(current, place).Ok?
    ensures Triple(CalculateNewVersion(current, place).value)
            == Some(Bump(Triple(current).value, TranslatePlace(place).value))
    ensures TripleLess(Triple(current).value, Triple(CalculateNewVersion(current, place).value).value)
  {
    var parts := Split(current, '.');
    var p := TranslatePlace(place).value;
    assert ParseInt(parts[p]) == Ok(Component(TripleOf(parts).value, p));
    var _, _ := CalculateUnfold(current, place);
    NewComponentsBump(parts, p);
  }

  // ----- Asking for a new version -----

  /** `ask_for_version` with the two answers as inputs: `n` keeps the
      version, `y` bumps it at the place the second answer names; any other
      answer is rejected. */
  function AskForVersion(current: string, update: string, place: string): (r: Result<Option<string>, PackagingError>) {
    var _ :- InputValidation(update, {"y", "n"});
    if update == "n" then Ok(None)
    else
      var _ :- InputValidation(place, Places);
      var version :- CalculateNewVersion(current, place);
      Ok(Some(version))
  }

  /** Asking never reaches the unknown-place error, since the place was
      validated first; a rejected answer is named and is outside its options;
      `n` keeps the version; and `y` with a valid place on a version of three
      integers always gives a strictly larger version of three integers. */
  lemma AskForVersionSpec(current: string, update: string, place: string)
    ensures AskForVersion(current, update, place).Err? ==>
              !AskForVersion(current, update, place).error.UnknownPlace?
    ensures AskForVersion(current, update, place).Err? &&
            AskForVersion(current, update, place).error.InvalidInput? ==>
              || (AskForVersion(current, update, place).error.answer == update && update !in {"y", "n"})
              || (AskForVersion(current, update, place).error.answer == place && place !in Places)
    ensures update == "n" ==> AskForVersion(current, update, place) == Ok(None)
    ensures update == "y" && place in Places && Triple(current).Some? ==>
              && AskForVersion(current, update, place).Ok?
              && AskForVersion(current, update, place).value.Some?
              && Triple(AskForVersion(current, update, place).value.value).Some?
              && TripleLess(Triple(current).value, Triple(AskForVersion(current, update, place).value.value).value)
  {
    if update == "y" && place in Places {
      ValidatedPlaceTranslates(place);
      if Triple(current).Some? {
        BumpIncreases(current, place);
      }
    }
  }
}
