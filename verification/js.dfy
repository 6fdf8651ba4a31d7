/**
 * The JavaScript values that reach the frontend's rules (claims decoded from
 * a token, route meta fields), with the coercions those rules rely on:
 * truthiness, `String(v)`, `Number(v)` and `parseInt(v)`.
 * JavaScript numbers are modelled as integers; a numeric conversion that
 * gives NaN returns the absent value of `Option<int>`.
 */
module Js {
  import opened Wrappers
  import Decimal

  /** A JSON value as `JSON.parse` yields it, plus `undefined` for a missing property and `NaN`. */
  datatype Value =
    | Undefined
    | Null
    | Bool(b: bool)
    | Num(n: int)
    | NaN
    | Str(s: string)
    | Arr(items: seq<Value>)
    | Obj

  /** JavaScript truthiness: `undefined`, `null`, `false`, `0`, `NaN` and `""` are falsy. */
  predicate Truthy(v: Value)
  {
    match v
    case Undefined => false
    case Null => false
    case Bool(b) => b
    case Num(n) => n != 0
    case NaN => false
    case Str(s) => s != ""
    case Arr(_) => true
    case Obj => true
  }

  /** A plain object's properties. */
  type Props = map<string, Value>

  /** `o.name`: `undefined` when the property is absent. */
  function Prop(o: Props, name: string): (r: Value)
    ensures name !in o ==> r == Undefined
    ensures name in o ==> r == o[name]
  {
    if name in o then o[name] else Undefined
  }

  /** `a || b`: the first operand when it is truthy, otherwise the second. */
  function Or(a: Value, b: Value): (r: Value)
    ensures Truthy(r) <==> Truthy(a) || Truthy(b)
    ensures r == a || r == b
  {
    if Truthy(a) then a else b
  }

  /** `String(v)`; inside an array, `null` and `undefined` print as nothing. */
  function ToText(v: Value): string
  {
    match v
    case Undefined => "undefined"
    case Null => "null"
    case Bool(b) => if b then "true" else "false"
    case Num(n) => Decimal.Show(n)
    case NaN => "NaN"
    case Str(s) => s
    case Arr(items) => JoinItems(items)
    case Obj => "[object Object]"
  }

  function JoinItems(items: seq<Value>): string
  {
    if |items| == 0 then ""
    else
      var first := if items[0].Null? || items[0].Undefined? then "" else ToText(items[0]);
      if |items| == 1 then first else first + "," + JoinItems(items[1..])
  }

  predicate IsSpace(c: char)
  {
    c == ' ' || c == '\t' || c == '\n' || c == '\r'
  }

  /** `s` without its leading white space. */
  function TrimStart(s: string): (r: string)
    ensures |r| <= |s| && r == s[|s| - |r|..]
    ensures |r| > 0 ==> !IsSpace(r[0])
    ensures forall i :: 0 <= i < |s| - |r| ==> IsSpace(s[i])
  {
    if |s| > 0 && IsSpace(s[0]) then TrimStart(s[1..]) else s
  }

  /** `s` without its trailing white space. */
  function TrimEnd(s: string): (r: string)
    ensures |r| <= |s| && r == s[..|r|]
    ensures |r| > 0 ==> !IsSpace(r[|r| - 1])
    ensures forall i :: |r| <= i < |s| ==> IsSpace(s[i])
  {
    if |s| > 0 && IsSpace(s[|s| - 1]) then TrimEnd(s[..|s| - 1]) else s
  }

  /** The longest prefix of `s` made of decimal digits. */
  function DigitPrefix(s: string): (r: string)
    ensures Decimal.AllDigits(r)
    ensures |r| <= |s| && r == s[..|r|]
    ensures |r| < |s| ==> !Decimal.IsDigit(s[|r|])
  {
    if |s| > 0 && Decimal.IsDigit(s[0]) then [s[0]] + DigitPrefix(s[1..]) else ""
  }

  predicate IsHexDigit(c: char)
  {
    Decimal.IsDigit(c) || 'a' <= c <= 'f' || 'A' <= c <= 'F'
  }

  function HexValue(c: char): nat
    requires IsHexDigit(c)
  {
    if Decimal.IsDigit(c) then Decimal.DigitValue(c)
    else if 'a' <= c <= 'f' then c as int - 'a' as int + 10
    else c as int - 'A' as int + 10
  }

  /** The longest prefix of `s` made of hexadecimal digits. */
  function HexPrefix(s: string): (r: string)
    ensures forall i :: 0 <= i < |r| ==> IsHexDigit(r[i])
    ensures |r| <= |s| && r == s[..|r|]
    ensures |r| < |s| ==> !IsHexDigit(s[|r|])
  {
    if |s| > 0 && IsHexDigit(s[0]) then [s[0]] + HexPrefix(s[1..]) else ""
  }

  function HexValueOf(s: string): nat
    requires forall i :: 0 <= i < |s| ==> IsHexDigit(s[i])
  {
    if |s| == 0 then 0 else HexValueOf(s[..|s| - 1]) * 16 + HexValue(s[|s| - 1])
  }

  /** The magnitude `parseInt` reads after the sign: hexadecimal after "0x", decimal otherwise. */
  function ParseMagnitude(s: string): Option<nat>
  {
    if |s| >= 2 && s[0] == '0' && (s[1] == 'x' || s[1] == 'X') then
      var h := HexPrefix(s[2..]);
      if |h| == 0 then None else Some(HexValueOf(h))
    else
      var d := DigitPrefix(s);
      if |d| == 0 then None else Some(Decimal.ValueOf(d))
  }

  /** `parseInt(s)` with no radix: white space, a sign, then the longest numeric prefix. */
  function ParseIntText(s: string): Option<int>
  {
    var t := TrimStart(s);
    if |t| > 0 && (t[0] == '-' || t[0] == '+') then
      match ParseMagnitude(t[1..])
      case None => None
      case Some(m) => Some(if t[0] == '-' then 0 - m else m)
    else
      match ParseMagnitude(t)
      case None => None
      case Some(m) => Some(m)
  }

  /**
   * `parseInt(v)`: the value is first turned into text. A number reads back
   * as itself, and JSON integer text as the integer it denotes.
   */
  function ParseInt(v: Value): (r: Option<int>)
    ensures v.Num? ==> r == Some(v.n)
    ensures v.Str? && Decimal.Parse(v.s).Some? ==> r == Decimal.Parse(v.s)
  {
    assert v.Num? ==> ParseIntText(ToText(v)) == Some(v.n) by {
      if v.Num? {
        ParseIntOfShow(v.n);
      }
    }
    assert v.Str? && Decimal.Parse(v.s).Some? ==> ParseIntText(v.s) == Decimal.Parse(v.s) by {
      if v.Str? && Decimal.Parse(v.s).Some? {
        ParseIntOfJsonText(v.s);
      }
    }
    ParseIntText(ToText(v))
  }

  /**
   * `Number(s)` for integer texts: white space around is dropped, blank is
   * 0, a signed digit string its value, anything else NaN.
   */
  function TextToNumber(s: string): Option<int>
  {
    var t := TrimEnd(TrimStart(s));
    if |t| == 0 then Some(0)
    else if (t[0] == '-' || t[0] == '+') && |t| > 1 && Decimal.AllDigits(t[1..]) then
      Some(if t[0] == '-' then 0 - Decimal.ValueOf(t[1..]) else Decimal.ValueOf(t[1..]))
    else if Decimal.AllDigits(t) then Some(Decimal.ValueOf(t))
    else None
  }

  /**
   * `Number(v)`, the coercion applied by `*` and `>=`. A number is itself,
   * and JSON integer text is the integer it denotes.
   */
  function ToNumber(v: Value): (r: Option<int>)
    ensures v.Num? ==> r == Some(v.n)
    ensures v.Str? && Decimal.Parse(v.s).Some? ==> r == Decimal.Parse(v.s)
  {
    match v
    case Undefined => None
    case Null => Some(0)
    case Bool(b) => Some(if b then 1 else 0)
    case Num(n) => Some(n)
    case NaN => None
    case Str(s) =>
      assert Decimal.Parse(s).Some? ==> TextToNumber(s) == Decimal.Parse(s) by {
        if Decimal.Parse(s).Some? {
          TextToNumberOfJsonText(s);
        }
      }
      TextToNumber(s)
    case Arr(_) => TextToNumber(ToText(v))
    case Obj => None
  }

  /** `parseInt` reads back the text of any number. */
  lemma ParseIntOfShow(n: int)
    ensures ParseIntText(Decimal.Show(n)) == Some(n)
  {
    Decimal.ParseShow(n);
    ParseIntOfJsonText(Decimal.Show(n));
  }

  /** `parseInt` reads JSON integer text as the integer it denotes. */
  lemma ParseIntOfJsonText(s: string)
    requires Decimal.Parse(s).Some?
    ensures ParseIntText(s) == Decimal.Parse(s)
  {
    if Decimal.Canonical(s) {
      Decimal.ParseOfCanonical(s);
      ParseIntOfDigits(s);
    } else {
      var d := s[1..];
      assert s == "-" + d;
      ParseIntOfMinusDigits(d, Decimal.ValueOf(d));
    }
  }

  /** Canonical digits read back as their value. */
  lemma ParseIntOfDigits(d: string)
    requires Decimal.Canonical(d)
    ensures ParseIntText(d) == Some(Decimal.ValueOf(d))
  {
    TrimStartNoSpace(d);
    MagnitudeOfDigits(d);
  }

  /** A minus sign before canonical digits reads back as the negated value `m`. */
  lemma ParseIntOfMinusDigits(d: string, m: nat)
    requires Decimal.Canonical(d) && m == Decimal.ValueOf(d)
    ensures ParseIntText("-" + d) == Some(0 - m)
    ensures Decimal.Parse("-" + d) == Some(0 - m)
  {
    Decimal.ParseOfMinusValue(d, m);
    MagnitudeOfDigits(d);
    ParseIntTextOfMinus(d, m);
  }

  /** The magnitude `parseInt` reads from canonical digits is their decimal value. */
  lemma MagnitudeOfDigits(d: string)
    requires Decimal.Canonical(d)
    ensures ParseMagnitude(d) == Some(Decimal.ValueOf(d))
  {
    DigitPrefixAll(d);
    MagnitudeOfCanonical(d);
  }

  /** `Number` reads JSON integer text as the integer it denotes. */
  lemma TextToNumberOfJsonText(s: string)
    requires Decimal.Parse(s).Some?
    ensures TextToNumber(s) == Decimal.Parse(s)
  {
    TrimStartNoSpace(s);
    TrimEndNoSpace(s);
    if Decimal.Canonical(s) {
      Decimal.ParseOfCanonical(s);
    } else {
      var d := s[1..];
      assert s == "-" + d;
      Decimal.ParseOfMinus(d);
    }
  }

  /** A minus sign before a magnitude reads back as its negation. */
  lemma ParseIntTextOfMinus(d: string, m: nat)
    requires ParseMagnitude(d) == Some(m)
    ensures ParseIntText("-" + d) == Some(0 - m)
  {
    var s := "-" + d;
    assert s[0] == '-' && s[1..] == d;
    TrimStartNoSpace(s);
  }

  lemma TrimStartNoSpace(s: string)
    requires |s| > 0 && !IsSpace(s[0])
    ensures TrimStart(s) == s
  {
  }

  lemma TrimEndNoSpace(s: string)
    requires |s| > 0 && !IsSpace(s[|s| - 1])
    ensures TrimEnd(s) == s
  {
  }

  /** A digit string is its own longest digit prefix. */
  lemma {:induction false} DigitPrefixAll(s: string)
    requires Decimal.AllDigits(s)
    ensures DigitPrefix(s) == s
  {
    if |s| > 0 {
      DigitPrefixAll(s[1..]);
      assert s == [s[0]] + s[1..];
    }
  }

  /** `parseInt` reads a canonical digit string as decimal (it cannot start with "0x"). */
  lemma MagnitudeOfCanonical(d: string)
    requires Decimal.Canonical(d)
    requires DigitPrefix(d) == d
    ensures ParseMagnitude(d) == Some(Decimal.ValueOf(d))
  {
    if |d| >= 2 {
      assert d[0] != '0';
    }
  }
}
