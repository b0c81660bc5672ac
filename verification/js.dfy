/** The few JavaScript value rules the handlers depend on: truthiness of
    optional request fields, `String.prototype.split` with a one-character
    separator, `Number(str)` and `parseInt(str, 10)`. */
module Js {
  import opened Wrappers
  import opened Decimal

  /** `if (x)` for an optional numeric id: `undefined`, `null` and `0` are falsy */
  predicate TruthyId(id: Option<nat>) {
    id.Some? && id.value != 0
  }

  /** `!x` is false for an optional string: it is present and not `""` */
  predicate Given(s: Option<string>) {
    s.Some? && s.value != ""
  }

  /** `!x` is false for an optional number: it is present and not `0` */
  predicate GivenNumber(x: Option<int>) {
    x.Some? && x.value != 0
  }

  /** `s || d` for an optional string */
  function OrDefault(s: Option<string>, d: string): (r: string)
    ensures Given(s) ==> r == s.value
    ensures !Given(s) ==> r == d
  {
    if Given(s) then s.value else d
  }

  /** `s || null` for an optional string */
  function OrNull(s: Option<string>): (r: Option<string>)
    ensures r.Some? <==> Given(s)
    ensures r.Some? ==> r == s
  {
    if Given(s) then s else None
  }

  /** `s.split(sep)`: the pieces between occurrences of `sep`; never empty */
  function Split(s: string, sep: char): (r: seq<string>)
    ensures |r| >= 1
    decreases |s|
  {
    if |s| == 0 then [""]
    else if s[0] == sep then [""] + Split(s[1..], sep)
    else
      var rest := Split(s[1..], sep);
      [[s[0]] + rest[0]] + rest[1..]
  }

  /** A string without the separator splits into itself alone */
  lemma {:induction false} SplitNoSeparator(a: string, sep: char)
    requires sep !in a
    ensures Split(a, sep) == [a]
    decreases |a|
  {
    if |a| > 0 {
      assert sep !in a[1..];
      SplitNoSeparator(a[1..], sep);
      assert [a[0]] + a[1..] == a;
    }
  }

  /** The first piece ends at the first separator */
  lemma {:induction false} SplitAtSeparator(a: string, sep: char, b: string)
    requires sep !in a
    ensures Split(a + [sep] + b, sep) == [a] + Split(b, sep)
    decreases |a|
  {
    var s := a + [sep] + b;
    if |a| == 0 {
      assert s[0] == sep && s[1..] == b;
    } else {
      assert s[0] == a[0];
      assert s[1..] == a[1..] + [sep] + b;
      assert sep !in a[1..];
      SplitAtSeparator(a[1..], sep, b);
      assert [a[0]] + a[1..] == a;
    }
  }

  /** A JavaScript number as far as these handlers use it: an integer or NaN */
  datatype JsNumber = NaN | Num(value: int)

  /** `x === n`; NaN equals nothing */
  predicate NumEq(x: JsNumber, n: int) {
    x.Num? && x.value == n
  }

  /** `x > n`; every comparison with NaN is false */
  predicate NumGt(x: JsNumber, n: int) {
    x.Num? && x.value > n
  }

  /** `Number(s)` for strings of decimal digits (the empty string is 0);
      any other string is NaN */
  function NumberOf(s: string): (r: JsNumber)
    ensures r.Num? <==> AllDigits(s)
    ensures s == "" ==> r == Num(0)
  {
    if AllDigits(s) then Num(Value(s)) else NaN
  }

  /** The longest prefix of `s` made of digits */
  function DigitPrefix(s: string): (r: string)
    ensures AllDigits(r) && |r| <= |s| && r == s[..|r|]
    ensures |r| < |s| ==> !IsDigit(s[|r|])
    decreases |s|
  {
    if |s| == 0 || !IsDigit(s[0]) then "" else [s[0]] + DigitPrefix(s[1..])
  }

  /** `parseInt(s, 10)`: an optional sign, then the leading digits; NaN when
      there are none */
  function ParseInt(s: string): (r: JsNumber)
  {
    var body := if |s| > 0 && (s[0] == '-' || s[0] == '+') then s[1..] else s;
    var digits := DigitPrefix(body);
    if |digits| == 0 then NaN
    else if s[0] == '-' then Num(0 - Value(digits) as int)
    else Num(Value(digits))
  }

  /** `parseInt(n.toString(), 10) === n` for every non-negative integer */
  lemma ParseIntFromNat(n: nat)
    ensures ParseInt(FromNat(n)) == Num(n)
  {
    var s := FromNat(n);
    assert IsDigit(s[0]);
    DigitPrefixOfDigits(s);
    ValueOfFromNat(n);
  }

  lemma {:induction false} DigitPrefixOfDigits(s: string)
    requires AllDigits(s)
    ensures DigitPrefix(s) == s
    decreases |s|
  {
    if |s| > 0 {
      DigitPrefixOfDigits(s[1..]);
      assert [s[0]] + s[1..] == s;
    }
  }
}
