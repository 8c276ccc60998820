/**
 * The pieces of Python's string handling that the face-capture utilities rely on:
 * `str.lower()`, `str.split(sep)`, `int(text)` and `'%s' % n` for a natural number.
 * Only ASCII letters, digits and whitespace are modelled.
 */
module Text {
  import opened Wrappers

  predicate IsAsciiDigit(c: char) {
    '0' <= c <= '9'
  }

  predicate AllDigits(s: string) {
    forall i :: 0 <= i < |s| ==> IsAsciiDigit(s[i])
  }

  function DigitValue(c: char): nat
    requires IsAsciiDigit(c)
  {
    (c as int) - ('0' as int)
  }

  function DigitChar(d: nat): (c: char)
    requires d < 10
    ensures IsAsciiDigit(c) && DigitValue(c) == d
  {
    (('0' as int) + d) as char
  }

  // ---------------------------------------------------------------------------
  // str.lower()

  function LowerChar(c: char): char {
    if 'A' <= c <= 'Z' then ((c as int) + 32) as char else c
  }

  /** `s.lower()` for ASCII letters; every other character is kept as it is. */
  function Lower(s: string): (r: string)
    ensures |r| == |s| && HasNoUpper(r)
    ensures forall i :: 0 <= i < |s| && !('A' <= s[i] <= 'Z') ==> r[i] == s[i]
    ensures forall i :: 0 <= i < |s| && 'A' <= s[i] <= 'Z' ==> r[i] as int == s[i] as int - 'A' as int + 'a' as int
  {
    seq(|s|, i requires 0 <= i < |s| => LowerChar(s[i]))
  }

  predicate HasNoUpper(s: string) {
    forall i :: 0 <= i < |s| ==> !('A' <= s[i] <= 'Z')
  }

  /** Lower-casing leaves a string without upper-case letters unchanged. */
  lemma LowerKeepsLowercase(s: string)
    requires HasNoUpper(s)
    ensures Lower(s) == s
  {
  }

  /** Lower-casing twice is lower-casing once. */
  lemma LowerIdempotent(s: string)
    ensures Lower(Lower(s)) == Lower(s)
  {
    LowerKeepsLowercase(Lower(s));
  }

  // ---------------------------------------------------------------------------
  // str.split(sep)

  /** `s.split(sep)`: the pieces between consecutive occurrences of `sep`, in order. */
  function Split(s: string, sep: char): (parts: seq<string>)
    ensures |parts| >= 1
    ensures forall k :: 0 <= k < |parts| ==> sep !in parts[k]
    decreases |s|
  {
    if |s| == 0 then [""]
    else
      var rest := Split(s[1..], sep);
      if s[0] == sep then [""] + rest
      else [[s[0]] + rest[0]] + rest[1..]
  }

  /** `sep.join(parts)`, the inverse of `Split`. */
  function Join(parts: seq<string>, sep: char): string
    requires |parts| >= 1
  {
    if |parts| == 1 then parts[0] else parts[0] + [sep] + Join(parts[1..], sep)
  }

  lemma {:induction false} JoinOfSplit(s: string, sep: char)
    ensures Join(Split(s, sep), sep) == s
    decreases |s|
  {
    if |s| > 0 {
      JoinOfSplit(s[1..], sep);
      var rest := Split(s[1..], sep);
      if s[0] == sep {
        assert Split(s, sep) == [""] + rest;
        assert ([""] + rest)[1..] == rest;
      } else {
        var parts := [[s[0]] + rest[0]] + rest[1..];
        assert Split(s, sep) == parts;
        if |rest| == 1 {
          assert Join(rest, sep) == rest[0];
        } else {
          assert parts[1..] == rest[1..];
          assert Join(rest, sep) == rest[0] + [sep] + Join(rest[1..], sep);
        }
      }
    }
  }

  /** Splitting a piece that holds no separator gives the piece back. */
  lemma {:induction false} SplitWithoutSeparator(s: string, sep: char)
    requires sep !in s
    ensures Split(s, sep) == [s]
    decreases |s|
  {
    if |s| > 0 {
      assert sep !in s[1..] by {
        forall c | c in s[1..] ensures c != sep { }
      }
      SplitWithoutSeparator(s[1..], sep);
      assert [s[0]] + s[1..] == s;
    }
  }

  /** A piece followed by a separator is split off as the first part. */
  lemma {:induction false} SplitAtFirstSeparator(a: string, b: string, sep: char)
    requires sep !in a
    ensures Split(a + [sep] + b, sep) == [a] + Split(b, sep)
    decreases |a|
  {
    var s := a + [sep] + b;
    if |a| == 0 {
      assert s[1..] == b;
    } else {
      assert sep !in a[1..] by {
        forall c | c in a[1..] ensures c != sep { }
      }
      assert s[1..] == a[1..] + [sep] + b;
      SplitAtFirstSeparator(a[1..], b, sep);
      assert [a[0]] + a[1..] == a;
    }
  }

  /** Split undoes Join whenever no part holds the separator. */
  lemma {:induction false} SplitOfJoin(parts: seq<string>, sep: char)
    requires |parts| >= 1
    requires forall k :: 0 <= k < |parts| ==> sep !in parts[k]
    ensures Split(Join(parts, sep), sep) == parts
    decreases |parts|
  {
    if |parts| == 1 {
      SplitWithoutSeparator(parts[0], sep);
    } else {
      SplitOfJoin(parts[1..], sep);
      SplitAtFirstSeparator(parts[0], Join(parts[1..], sep), sep);
      assert [parts[0]] + parts[1..] == parts;
    }
  }

  // ---------------------------------------------------------------------------
  // int(text)

  /**
   * The ASCII characters `int()` strips around its digits: tab, line feed, vertical
   * tab, form feed, carriage return and space. The separators 0x1C to 0x1F, which
   * `str.isspace()` also accepts, are not stripped.
   */
  predicate IsWhitespace(c: char) {
    c == ' ' || 9 <= c as int <= 13
  }

  function TrimStart(s: string): (t: string)
    ensures |t| <= |s|
    decreases |s|
  {
    if |s| > 0 && IsWhitespace(s[0]) then TrimStart(s[1..]) else s
  }

  function TrimEnd(s: string): (t: string)
    ensures |t| <= |s|
    decreases |s|
  {
    if |s| > 0 && IsWhitespace(s[|s| - 1]) then TrimEnd(s[..|s| - 1]) else s
  }

  /** The value of a string of decimal digits, most significant first. */
  function DigitsValue(d: string): nat
    requires AllDigits(d)
  {
    if |d| == 0 then 0 else DigitsValue(d[..|d| - 1]) * 10 + DigitValue(d[|d| - 1])
  }

  /**
   * The value of `t` read as Python's decimal digit groups, `digit ('_'? digit)*`,
   * or `None` when `t` is not of that form.
   */
  function GroupsValue(t: string): Option<nat>
    decreases |t|
  {
    if |t| == 0 || !IsAsciiDigit(t[|t| - 1]) then None
    else
      var d := DigitValue(t[|t| - 1]);
      var init := t[..|t| - 1];
      if |init| == 0 then Some(d)
      else
        var higher :=
          if IsAsciiDigit(init[|init| - 1]) then GroupsValue(init)
          else if init[|init| - 1] == '_' then GroupsValue(init[..|init| - 1])
          else None;
        match higher
        case None => None
        case Some(v) => Some(v * 10 + d)
  }

  /**
   * `int(text)` in base 10: surrounding whitespace, one optional sign, then
   * digit groups. `None` stands for the `ValueError` Python raises otherwise.
   */
  function ParseInt(text: string): Option<int> {
    var t := TrimEnd(TrimStart(text));
    if |t| > 0 && (t[0] == '+' || t[0] == '-') then
      match GroupsValue(t[1..])
      case None => None
      case Some(magnitude) => Some(if t[0] == '-' then 0 - magnitude else magnitude)
    else
      match GroupsValue(t)
      case None => None
      case Some(v) => Some(v)
  }

  lemma {:induction false} GroupsValueOfDigits(d: string)
    requires |d| > 0 && AllDigits(d)
    ensures GroupsValue(d) == Some(DigitsValue(d))
    decreases |d|
  {
    if |d| > 1 {
      GroupsValueOfDigits(d[..|d| - 1]);
    }
  }

  /** The characters `int()` can accept once the text is trimmed: digits, `_`, and a sign in front. */
  predicate IntShaped(t: string) {
    && |t| > 0
    && forall i :: 0 <= i < |t| ==> IsAsciiDigit(t[i]) || t[i] == '_' || (i == 0 && (t[i] == '+' || t[i] == '-'))
  }

  /** Digit groups hold nothing but digits and underscores, and at least one character. */
  lemma {:induction false} GroupsValueChars(t: string)
    requires GroupsValue(t).Some?
    ensures |t| > 0 && forall i :: 0 <= i < |t| ==> IsAsciiDigit(t[i]) || t[i] == '_'
    decreases |t|
  {
    var init := t[..|t| - 1];
    if |init| > 0 {
      if IsAsciiDigit(init[|init| - 1]) {
        GroupsValueChars(init);
      } else {
        GroupsValueChars(init[..|init| - 1]);
      }
    }
  }

  /** Text that `int()` accepts is, once trimmed, digits and underscores with at most a sign in front. */
  lemma ParseIntShaped(text: string)
    requires ParseInt(text).Some?
    ensures IntShaped(TrimEnd(TrimStart(text)))
  {
    var t := TrimEnd(TrimStart(text));
    if |t| > 0 && (t[0] == '+' || t[0] == '-') {
      GroupsValueChars(t[1..]);
      assert forall i :: 1 <= i < |t| ==> t[i] == t[1..][i - 1];
    } else {
      GroupsValueChars(t);
    }
  }

  /**
   * `int()` raises `ValueError` on text that is empty after trimming, or that holds
   * a character other than a digit, `_`, or a sign in front.
   */
  lemma ParseIntRejects(text: string)
    requires !IntShaped(TrimEnd(TrimStart(text)))
    ensures ParseInt(text) == None
  {
    if ParseInt(text).Some? {
      ParseIntShaped(text);
      assert false;
    }
  }

  /** A plain run of digits parses to its decimal value. */
  lemma ParseDigits(d: string)
    requires |d| > 0 && AllDigits(d)
    ensures ParseInt(d) == Some(DigitsValue(d))
  {
    GroupsValueOfDigits(d);
    var t := TrimEnd(TrimStart(d));
    assert t == d by {
      assert TrimStart(d) == d;
      assert TrimEnd(d) == d;
    }
    assert !(t[0] == '+' || t[0] == '-') by {
      assert IsAsciiDigit(d[0]);
    }
  }

  // ---------------------------------------------------------------------------
  // str(n)

  /** The decimal text of `n`, as `'%s' % n` prints it. */
  function NatToString(n: nat): (s: string)
    ensures |s| > 0 && AllDigits(s)
    ensures DigitsValue(s) == n
    ensures s[0] == '0' ==> s == "0"
  {
    if n < 10 then [DigitChar(n)]
    else
      var s := NatToString(n / 10) + [DigitChar(n % 10)];
      assert s[..|s| - 1] == NatToString(n / 10);
      s
  }

  /** An information separator (0x1C) next to the digits is not stripped, so `int()` raises. */
  lemma ParseIntKeepsSeparators(text: string)
    requires text == "\U{1c}5"
    ensures ParseInt(text) == None
  {
    assert TrimStart(text) == text;
    assert TrimEnd(text) == text;
    assert !IntShaped(text);
    ParseIntRejects(text);
  }

  lemma ParseOfNatToString(n: nat)
    ensures ParseInt(NatToString(n)) == Some(n)
  {
    ParseDigits(NatToString(n));
  }

  lemma NatToStringInjective(a: nat, b: nat)
    requires NatToString(a) == NatToString(b)
    ensures a == b
  {
  }
}
