/** The few JavaScript built-ins that the timetable utilities lean on, stated
    as ECMAScript defines them: the integer-valued numbers `parseInt` yields,
    `parseInt` itself, number-to-string conversion, `String.prototype.split`
    and `Array.prototype.join` with a one-character separator, truthiness, and
    property lookup on a plain object literal. */
module Js {

  datatype Option<T> = None | Some(value: T)

  /** A JavaScript number as this program can produce one: `parseInt` and
      integer arithmetic give an integer or NaN. Negative zero is folded into
      zero: the program only ever tests such a number for truthiness or turns
      it into a string, and both treat -0 as 0. */
  datatype Number = NaN | Int(value: int)

  /** The JavaScript values that flow through the year computation: `null`
      (an absent query parameter), a string or a number. */
  datatype Primitive = Null | Str(text: string) | Num(number: Number)

  predicate NumberTruthy(n: Number) {
    n.Int? && n.value != 0
  }

  predicate Truthy(v: Primitive) {
    match v
    case Null => false
    case Str(s) => s != ""
    case Num(n) => NumberTruthy(n)
  }

  /** `a || b` */
  function Or(a: Primitive, b: Primitive): (r: Primitive)
    ensures Truthy(a) ==> r == a
    ensures !Truthy(a) ==> r == b
  {
    if Truthy(a) then a else b
  }

  // ---------------------------------------------------------------------
  // Digits

  predicate IsDecimalDigit(c: char) {
    '0' <= c <= '9'
  }

  predicate IsRadixDigit(c: char, radix: nat)
    requires radix == 10 || radix == 16
  {
    if radix == 10 then IsDecimalDigit(c)
    else IsDecimalDigit(c) || 'a' <= c <= 'f' || 'A' <= c <= 'F'
  }

  function DigitValue(c: char, radix: nat): (d: nat)
    requires radix == 10 || radix == 16
    requires IsRadixDigit(c, radix)
    ensures d < radix
  {
    if IsDecimalDigit(c) then (c - '0') as nat
    else if 'a' <= c <= 'f' then (c - 'a') as nat + 10
    else (c - 'A') as nat + 10
  }

  predicate AllRadixDigits(s: string, radix: nat)
    requires radix == 10 || radix == 16
  {
    forall i :: 0 <= i < |s| ==> IsRadixDigit(s[i], radix)
  }

  /** The value of a string of digits, most significant first. */
  function DigitsValue(s: string, radix: nat): nat
    requires radix == 10 || radix == 16
    requires AllRadixDigits(s, radix)
  {
    if s == [] then 0
    else DigitsValue(s[..|s| - 1], radix) * radix + DigitValue(s[|s| - 1], radix)
  }

  /** The longest prefix of `s` made of digits of the given radix. */
  function DigitPrefix(s: string, radix: nat): (z: string)
    requires radix == 10 || radix == 16
    ensures z <= s && AllRadixDigits(z, radix)
    ensures |z| < |s| ==> !IsRadixDigit(s[|z|], radix)
  {
    if s != [] && IsRadixDigit(s[0], radix) then [s[0]] + DigitPrefix(s[1..], radix) else []
  }

  // ---------------------------------------------------------------------
  // parseInt (section 19.2.5 of ECMA-262), called without a radix

  /** The characters TrimString removes: WhiteSpace and LineTerminator. */
  const WhiteSpace: set<char> := {
    '\t', '\n', '\U{000B}', '\U{000C}', '\r', ' ', '\U{00A0}', '\U{1680}',
    '\U{2000}', '\U{2001}', '\U{2002}', '\U{2003}', '\U{2004}', '\U{2005}',
    '\U{2006}', '\U{2007}', '\U{2008}', '\U{2009}', '\U{200A}', '\U{2028}',
    '\U{2029}', '\U{202F}', '\U{205F}', '\U{3000}', '\U{FEFF}'
  }

  function TrimStart(s: string): (t: string)
    ensures t != [] ==> t[0] !in WhiteSpace
  {
    if s != [] && s[0] in WhiteSpace then TrimStart(s[1..]) else s
  }

  /** `parseInt(s)`: skip leading white space, read an optional sign, then
      the longest run of digits, hexadecimal after a `0x`/`0X` prefix and
      decimal otherwise; NaN when that run is empty. */
  function ParseInt(s: string): Number {
    ParseSigned(TrimStart(s))
  }

  function ParseSigned(t: string): Number {
    if t != [] && t[0] == '-' then Negate(ParseUnsigned(t[1..]))
    else if t != [] && t[0] == '+' then ParseUnsigned(t[1..])
    else ParseUnsigned(t)
  }

  function Negate(n: Number): Number {
    match n
    case NaN => NaN
    case Int(v) => Int(-v)
  }

  function ParseUnsigned(u: string): Number {
    var hex := |u| >= 2 && u[0] == '0' && (u[1] == 'x' || u[1] == 'X');
    var radix := if hex then 16 else 10;
    var z := DigitPrefix(if hex then u[2..] else u, radix);
    if z == [] then NaN else Int(DigitsValue(z, radix))
  }

  // ---------------------------------------------------------------------
  // Number to string (section 6.1.6.1.20 of ECMA-262, integers only)

  function DecimalDigit(d: nat): (c: char)
    requires d < 10
    ensures IsDecimalDigit(c) && DigitValue(c, 10) == d
  {
    ('0' as int + d) as char
  }

  /** The decimal numeral of `n`, without leading zeros. */
  function NatToString(n: nat): (s: string)
    ensures s != [] && AllRadixDigits(s, 10)
    ensures n > 0 ==> s[0] != '0'
    ensures n < 10 <==> |s| == 1
  {
    if n < 10 then [DecimalDigit(n)] else NatToString(n / 10) + [DecimalDigit(n % 10)]
  }

  function NumberToString(n: Number): string {
    match n
    case NaN => "NaN"
    case Int(v) => if v < 0 then "-" + NatToString(-v) else NatToString(v)
  }

  /** `String(v)`, as `+` applies it when one operand is a string. */
  function PrimitiveToString(v: Primitive): string {
    match v
    case Null => "null"
    case Str(s) => s
    case Num(n) => NumberToString(n)
  }

  lemma {:induction false} NatToStringValue(n: nat)
    ensures DigitsValue(NatToString(n), 10) == n
  {
    var s := NatToString(n);
    if n >= 10 {
      NatToStringValue(n / 10);
      assert s[..|s| - 1] == NatToString(n / 10);
    }
  }

  lemma {:induction false} DigitPrefixOfDigits(s: string, radix: nat)
    requires radix == 10 || radix == 16
    requires AllRadixDigits(s, radix)
    ensures DigitPrefix(s, radix) == s
  {
    if s != [] {
      DigitPrefixOfDigits(s[1..], radix);
    }
  }

  /** A decimal numeral without leading zeros reads back as its value. */
  lemma ParseUnsignedNatToString(n: nat)
    ensures ParseUnsigned(NatToString(n)) == Int(n)
  {
    DigitPrefixOfDigits(NatToString(n), 10);
    NatToStringValue(n);
  }

  lemma ParseNatToString(n: nat)
    ensures ParseInt(NatToString(n)) == Int(n)
  {
    var s := NatToString(n);
    assert s[0] !in WhiteSpace;
    ParseUnsignedNatToString(n);
  }

  lemma ParseNaNString()
    ensures ParseInt("NaN") == NaN
  {
    assert "NaN"[0] !in WhiteSpace;
    assert !IsRadixDigit("NaN"[0], 10);
  }

  lemma ParseNegativeNatToString(n: nat)
    ensures ParseInt("-" + NatToString(n)) == Int(-(n as int))
  {
    var s := "-" + NatToString(n);
    assert s[0] !in WhiteSpace;
    assert s[1..] == NatToString(n);
    ParseUnsignedNatToString(n);
  }

  /** Every number this model knows reads back through `parseInt` from its
      string form, NaN included (`parseInt("NaN")` is NaN). */
  lemma ParseNumberToString(n: Number)
    ensures ParseInt(NumberToString(n)) == n
  {
    match n
    case NaN => ParseNaNString();
    case Int(v) =>
      if v >= 0 {
        ParseNatToString(v);
      } else {
        ParseNegativeNatToString(-v);
      }
  }

  lemma NumberToStringInjective(a: Number, b: Number)
    requires NumberToString(a) == NumberToString(b)
    ensures a == b
  {
    ParseNumberToString(a);
    ParseNumberToString(b);
  }

  lemma NatToStringInjective(a: nat, b: nat)
    requires NatToString(a) == NatToString(b)
    ensures a == b
  {
    NatToStringValue(a);
    NatToStringValue(b);
  }

  // ---------------------------------------------------------------------
  // split and join with a one-character separator

  /** `s.split(sep)`: the pieces between separators, in order; at least one
      piece, the empty string for an empty input. */
  function Split(s: string, sep: char): (parts: seq<string>)
    ensures |parts| >= 1
    ensures forall i :: 0 <= i < |parts| ==> sep !in parts[i]
  {
    if s == [] then [""]
    else if s[0] == sep then [""] + Split(s[1..], sep)
    else
      var rest := Split(s[1..], sep);
      [[s[0]] + rest[0]] + rest[1..]
  }

  /** `parts.join(sep)`; the empty list joins to the empty string. */
  function Join(parts: seq<string>, sep: string): string {
    if parts == [] then ""
    else if |parts| == 1 then parts[0]
    else parts[0] + sep + Join(parts[1..], sep)
  }

  /** Splitting and joining again on the same character gives back the input. */
  lemma {:induction false} JoinSplit(s: string, sep: char)
    ensures Join(Split(s, sep), [sep]) == s
  {
    if s != [] {
      JoinSplit(s[1..], sep);
      var rest := Split(s[1..], sep);
      if s[0] != sep {
        if |rest| == 1 {
          assert Split(s, sep) == [[s[0]] + rest[0]];
        } else {
          assert Split(s, sep)[1..] == rest[1..];
        }
      }
    }
  }

  lemma {:induction false} SplitWithoutSeparator(p: string, sep: char)
    requires sep !in p
    ensures Split(p, sep) == [p]
  {
    if p != [] {
      assert sep !in p[1..];
      SplitWithoutSeparator(p[1..], sep);
      assert p[0] != sep;
      assert [p[0]] + p[1..] == p;
    }
  }

  lemma {:induction false} SplitAtSeparator(p: string, sep: char, rest: string)
    requires sep !in p
    ensures Split(p + [sep] + rest, sep) == [p] + Split(rest, sep)
  {
    if p == [] {
      assert p + [sep] + rest == [sep] + rest;
      assert ([sep] + rest)[1..] == rest;
    } else {
      var s := p + [sep] + rest;
      assert s[0] == p[0] && s[1..] == p[1..] + [sep] + rest;
      assert sep !in p[1..];
      SplitAtSeparator(p[1..], sep, rest);
      assert [p[0]] + p[1..] == p;
    }
  }

  /** Joining pieces that do not contain the separator and splitting again
      gives back the pieces. */
  lemma {:induction false} SplitJoin(parts: seq<string>, sep: char)
    requires parts != []
    requires forall i :: 0 <= i < |parts| ==> sep !in parts[i]
    ensures Split(Join(parts, [sep]), sep) == parts
  {
    if |parts| == 1 {
      SplitWithoutSeparator(parts[0], sep);
    } else {
      SplitJoin(parts[1..], sep);
      SplitAtSeparator(parts[0], sep, Join(parts[1..], [sep]));
      assert [parts[0]] + parts[1..] == parts;
    }
  }

  // ---------------------------------------------------------------------
  // Plain object literals

  /** The names a plain object literal inherits from Object.prototype: the
      `in` operator and `obj[key]` see them although the object has no own
      property of that name. */
  const ObjectPrototypeNames: set<string> := {
    "constructor", "__defineGetter__", "__defineSetter__", "hasOwnProperty",
    "__lookupGetter__", "__lookupSetter__", "isPrototypeOf",
    "propertyIsEnumerable", "toString", "valueOf", "__proto__", "toLocaleString"
  }

  /** What `obj[key]` yields on a plain object whose own properties are `own`. */
  datatype Property<V> = Own(value: V) | Inherited(name: string) | Undefined

  /** `key in obj` */
  predicate HasProperty<V>(own: map<string, V>, key: string) {
    key in own || key in ObjectPrototypeNames
  }

  function GetProperty<V>(own: map<string, V>, key: string): (r: Property<V>)
    ensures r.Own? <==> key in own
    ensures r.Own? ==> r.value == own[key]
    ensures r.Undefined? <==> !HasProperty(own, key)
  {
    if key in own then Own(own[key])
    else if key in ObjectPrototypeNames then Inherited(key)
    else Undefined
  }
}
