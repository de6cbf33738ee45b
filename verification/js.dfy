/**
 * The small part of JavaScript's built-in semantics that the graph endpoint
 * relies on: truthiness of property values, `String(x)`, `s.split(' ')`,
 * `parts.join(sep)` and the decimal form of an integer.
 *
 * Strings are sequences of characters; a JavaScript length counts UTF-16
 * code units, which coincides with this length for text in the Basic
 * Multilingual Plane.
 */
module Js {

  /** A node property value as the driver hands it over (integers, not floats). */
  datatype Value =
    | Str(s: string)
    | Num(n: int)
    | Bool(b: bool)
    | List(items: seq<Value>)

  /** JavaScript truthiness: the empty string, `0` and `false` are falsy; every array is truthy. */
  predicate Truthy(v: Value)
    ensures Truthy(v) <==> v != Str("") && v != Num(0) && v != Bool(false)
  {
    match v
    case Str(s) => s != ""
    case Num(n) => n != 0
    case Bool(b) => b
    case List(_) => true
  }

  /** `parts.join(sep)`. */
  function Join(parts: seq<string>, sep: string): (joined: string)
    ensures parts == [] ==> joined == ""
    ensures |parts| == 1 ==> joined == parts[0]
    ensures |parts| >= 1 ==> |parts[0]| <= |joined| && joined[..|parts[0]|] == parts[0]
  {
    if |parts| == 0 then ""
    else if |parts| == 1 then parts[0]
    else parts[0] + sep + Join(parts[1..], sep)
  }

  /** `s.split(' ')`: the pieces between single spaces, empty pieces included. */
  function Split(s: string): (pieces: seq<string>)
    ensures |pieces| >= 1
    ensures forall i :: 0 <= i < |pieces| ==> ' ' !in pieces[i]
  {
    if |s| == 0 then [""]
    else
      var rest := Split(s[1..]);
      if s[0] == ' ' then [""] + rest
      else [[s[0]] + rest[0]] + rest[1..]
  }

  function DigitChar(d: nat): char
    requires d < 10
  {
    "0123456789"[d]
  }

  /** The decimal digits of `n`, without leading zeros. */
  function NatToString(n: nat): (s: string)
    ensures 1 <= |s|
    ensures |s| == 1 <==> n < 10
    ensures '0' <= s[0] <= '9'
  {
    if n < 10 then [DigitChar(n)] else NatToString(n / 10) + [DigitChar(n % 10)]
  }

  /** `String(i)` for an integer `i`. */
  function IntToString(i: int): (s: string)
    ensures |s| >= 1
    ensures s[0] == '-' <==> i < 0
  {
    if i < 0 then "-" + NatToString(-i) else NatToString(i)
  }

  /** `String(v)`: arrays are rendered as their elements' strings joined by commas. */
  function ToJsString(v: Value): (s: string)
    ensures v.Str? ==> s == v.s
    ensures v.Num? ==> s == IntToString(v.n)
    ensures v.List? && v.items == [] ==> s == ""
    ensures v.List? && |v.items| == 1 ==> s == ToJsString(v.items[0])
    decreases v
  {
    match v
    case Str(s) => s
    case Num(n) => IntToString(n)
    case Bool(b) => if b then "true" else "false"
    case List(items) => Join(seq(|items|, i requires 0 <= i < |items| => ToJsString(items[i])), ",")
  }

  lemma {:induction false} JoinSnoc(parts: seq<string>, last: string, sep: string)
    ensures Join(parts + [last], sep) == if parts == [] then last else Join(parts, sep) + sep + last
  {
    if |parts| > 1 {
      assert (parts + [last])[1..] == parts[1..] + [last];
      JoinSnoc(parts[1..], last, sep);
    }
  }

  /** `join(' ')` undoes `split(' ')`. */
  lemma {:induction false} JoinSplit(s: string)
    ensures Join(Split(s), " ") == s
  {
    if |s| > 0 {
      JoinSplit(s[1..]);
      var rest := Split(s[1..]);
      if s[0] != ' ' && |rest| > 1 {
        assert ([[s[0]] + rest[0]] + rest[1..])[1..] == rest[1..];
      }
    }
  }

  /** Splitting at a space splits the two sides independently. */
  lemma {:induction false} SplitAtSpace(a: string, b: string)
    ensures Split(a + " " + b) == Split(a) + Split(b)
  {
    var s := a + " " + b;
    if |a| == 0 {
      assert s == " " + b && s[1..] == b;
    } else {
      assert s[0] == a[0] && s[1..] == a[1..] + " " + b;
      SplitAtSpace(a[1..], b);
      var x, y := Split(a[1..]), Split(b);
      if a[0] != ' ' {
        assert (x + y)[0] == x[0] && (x + y)[1..] == x[1..] + y;
        assert Split(s) == [[a[0]] + x[0]] + (x[1..] + y);
        assert Split(a) == [[a[0]] + x[0]] + x[1..];
      }
    }
  }

  lemma {:induction false} SplitWord(w: string)
    requires ' ' !in w
    ensures Split(w) == [w]
  {
    if |w| > 0 {
      assert ' ' !in w[1..];
      SplitWord(w[1..]);
      assert [w[0]] + w[1..] == w;
    }
  }

  /** `split(' ')` undoes `join(' ')` of words that contain no space. */
  lemma {:induction false} SplitJoin(words: seq<string>)
    requires |words| >= 1
    requires forall i :: 0 <= i < |words| ==> ' ' !in words[i]
    ensures Split(Join(words, " ")) == words
  {
    if |words| == 1 {
      SplitWord(words[0]);
    } else {
      SplitAtSpace(words[0], Join(words[1..], " "));
      SplitWord(words[0]);
      SplitJoin(words[1..]);
    }
  }

  lemma DigitCharInjective(c: nat, d: nat)
    requires c < 10 && d < 10 && DigitChar(c) == DigitChar(d)
    ensures c == d
  {
  }

  lemma {:induction false} NatToStringInjective(a: nat, b: nat)
    requires NatToString(a) == NatToString(b)
    ensures a == b
  {
    var s := NatToString(a);
    if a >= 10 {
      assert b >= 10;
      assert s == NatToString(a / 10) + [DigitChar(a % 10)];
      assert s == NatToString(b / 10) + [DigitChar(b % 10)];
      assert NatToString(a / 10) == s[..|s| - 1] == NatToString(b / 10);
      NatToStringInjective(a / 10, b / 10);
      DigitCharInjective(a % 10, b % 10);
      assert a == 10 * (a / 10) + a % 10;
      assert b == 10 * (b / 10) + b % 10;
    } else {
      assert b < 10;
      DigitCharInjective(a, b);
    }
  }

  lemma NegativeSuffix(i: int)
    requires i < 0
    ensures IntToString(i)[1..] == NatToString(-i)
  {
  }

  lemma EqualStringsSameInt(a: int, b: int)
    requires IntToString(a) == IntToString(b)
    ensures a == b
  {
    if a < 0 {
      NegativeSuffix(a);
      NegativeSuffix(b);
      NatToStringInjective(-a, -b);
    } else {
      NatToStringInjective(a, b);
    }
  }

  /** Distinct integers have distinct decimal strings. */
  lemma IntToStringInjective(a: int, b: int)
    ensures IntToString(a) == IntToString(b) <==> a == b
  {
    if IntToString(a) == IntToString(b) {
      EqualStringsSameInt(a, b);
    }
  }
}
