/** The Python string operations the application relies on: `str.strip()`,
    `str.lower()`, the substring test `t in s`, `int(s)` in base 10, and
    `sep.join(parts)` together with the split that inverts it. */
module TextUtil {
  import opened Options

  // ---------------------------------------------------------------------
  // str.strip()
  // ---------------------------------------------------------------------

  /** The code points Python's `str.isspace()` accepts. */
  predicate IsSpace(c: char)
  {
    var n := c as int;
    (0x09 <= n <= 0x0D) || (0x1C <= n <= 0x20) || n == 0x85 || n == 0xA0 || n == 0x1680
    || (0x2000 <= n <= 0x200A) || n == 0x2028 || n == 0x2029 || n == 0x202F
    || n == 0x205F || n == 0x3000
  }

  /** Number of whitespace characters at the start of `s`. */
  function LeadingSpaces(s: string): (n: nat)
    ensures n <= |s|
    ensures forall k :: 0 <= k < n ==> IsSpace(s[k])
    ensures n < |s| ==> !IsSpace(s[n])
  {
    if |s| == 0 || !IsSpace(s[0]) then 0 else 1 + LeadingSpaces(s[1..])
  }

  /** Number of whitespace characters at the end of `s`. */
  function TrailingSpaces(s: string): (n: nat)
    ensures n <= |s|
    ensures forall k :: |s| - n <= k < |s| ==> IsSpace(s[k])
    ensures n < |s| ==> !IsSpace(s[|s| - 1 - n])
  {
    if |s| == 0 || !IsSpace(s[|s| - 1]) then 0 else 1 + TrailingSpaces(s[..|s| - 1])
  }

  /** `r` is what is left of `s` at offset `i` once the whitespace on both sides is cut. */
  ghost predicate StrippedAt(s: string, i: nat, r: string)
  {
    && i + |r| <= |s|
    && s[i..i + |r|] == r
    && (forall k :: 0 <= k < i ==> IsSpace(s[k]))
    && (forall k :: i + |r| <= k < |s| ==> IsSpace(s[k]))
  }

  /** Python's `s.strip()`. */
  function Strip(s: string): string
  {
    var rest := s[LeadingSpaces(s)..];
    rest[..|rest| - TrailingSpaces(rest)]
  }

  /** `s.strip()` cuts exactly the whitespace on both sides: what is left
      neither starts nor ends with whitespace, and it is empty exactly when
      `s` is all whitespace. */
  lemma StripSpec(s: string)
    ensures exists i: nat :: StrippedAt(s, i, Strip(s))
    ensures var r := Strip(s); r != [] ==> !IsSpace(r[0]) && !IsSpace(r[|r| - 1])
    ensures Strip(s) == [] <==> forall k :: 0 <= k < |s| ==> IsSpace(s[k])
  {
    var lead := LeadingSpaces(s);
    var rest := s[lead..];
    var r := Strip(s);
    assert StrippedAt(s, lead, r) by {
      assert s[lead..lead + |r|] == r;
      forall k | lead + |r| <= k < |s| ensures IsSpace(s[k]) {
        assert s[k] == rest[k - lead];
      }
    }
    assert r != [] ==> r[0] == s[lead];
  }

  // ---------------------------------------------------------------------
  // str.lower()
  // ---------------------------------------------------------------------

  /** Lower-case mapping of one character (ASCII letters only). */
  function LowerChar(c: char): char
  {
    if 'A' <= c <= 'Z' then (c as int + 32) as char else c
  }

  /** Python's `s.lower()`, restricted to ASCII letters. */
  function Lower(s: string): (r: string)
    ensures |r| == |s|
    ensures forall i :: 0 <= i < |s| ==> r[i] == LowerChar(s[i])
  {
    seq(|s|, i requires 0 <= i < |s| => LowerChar(s[i]))
  }

  // ---------------------------------------------------------------------
  // t in s
  // ---------------------------------------------------------------------

  /** `t` occurs in `s` starting at index `k`. */
  predicate OccursAt(t: string, s: string, k: nat)
  {
    k + |t| <= |s| && s[k..k + |t|] == t
  }

  lemma OccursAtShift(t: string, s: string, k: nat)
    requires |s| > 0
    ensures OccursAt(t, s, k + 1) <==> OccursAt(t, s[1..], k)
  {
    if k + 1 + |t| <= |s| {
      assert s[k + 1..k + 1 + |t|] == s[1..][k..k + |t|];
    }
  }

  /** Python's substring test `t in s`. */
  function Contains(s: string, t: string): bool
    decreases |s|
  {
    if |t| > |s| then false
    else if s[..|t|] == t then true
    else Contains(s[1..], t)
  }

  /** `t in s` holds exactly when `t` occurs in `s` at some index. */
  lemma {:induction false} ContainsSpec(s: string, t: string)
    ensures Contains(s, t) <==> exists k: nat :: OccursAt(t, s, k)
    decreases |s|
  {
    if |t| > |s| {
    } else if s[..|t|] == t {
      assert OccursAt(t, s, 0);
    } else {
      ContainsSpec(s[1..], t);
      if Contains(s[1..], t) {
        var k: nat :| OccursAt(t, s[1..], k);
        OccursAtShift(t, s, k);
      } else {
        forall k: nat | OccursAt(t, s, k) ensures false {
          assert k != 0;
          OccursAtShift(t, s, k - 1);
        }
      }
    }
  }

  // ---------------------------------------------------------------------
  // Decimal numbers: str(n) and int(s)
  // ---------------------------------------------------------------------

  predicate IsDigit(c: char)
  {
    '0' <= c <= '9'
  }

  function DigitChar(d: nat): (c: char)
    requires d < 10
    ensures IsDigit(c)
  {
    ('0' as int + d) as char
  }

  /** Python's `str(n)` for a natural number. */
  function NatToString(n: nat): (r: string)
    ensures |r| > 0
    ensures forall i :: 0 <= i < |r| ==> IsDigit(r[i])
  {
    if n < 10 then [DigitChar(n)] else NatToString(n / 10) + [DigitChar(n % 10)]
  }

  function DigitValue(c: char): nat
    requires IsDigit(c)
  {
    c as int - '0' as int
  }

  /** The value of a string of decimal digits. */
  function DigitsValue(s: string): nat
    requires forall i :: 0 <= i < |s| ==> IsDigit(s[i])
  {
    if s == [] then 0 else DigitsValue(s[..|s| - 1]) * 10 + DigitValue(s[|s| - 1])
  }

  /** `s`, made of digits and underscores, with its underscores removed:
      only the digits are left. */
  function RemoveUnderscores(s: string): (r: string)
    requires forall i :: 0 <= i < |s| ==> IsDigit(s[i]) || s[i] == '_'
    ensures |r| <= |s|
    ensures forall i :: 0 <= i < |r| ==> IsDigit(r[i])
  {
    if s == [] then []
    else RemoveUnderscores(s[..|s| - 1]) + (if s[|s| - 1] == '_' then [] else [s[|s| - 1]])
  }

  /** A base-10 integer body as `int()` accepts it: digits, with single
      underscores allowed between two digits. */
  predicate IsDigitBody(b: string)
  {
    && |b| > 0
    && IsDigit(b[0])
    && IsDigit(b[|b| - 1])
    && (forall i :: 0 <= i < |b| ==> IsDigit(b[i]) || b[i] == '_')
    && (forall i :: 0 <= i < |b| - 1 ==> b[i] == '_' ==> b[i + 1] != '_')
  }

  function ParseDigits(b: string): Option<nat>
  {
    if IsDigitBody(b) then Some(DigitsValue(RemoveUnderscores(b))) else None
  }

  /** U+001C..U+001F: `str.isspace()`, and so `strip()`, counts them as
      whitespace, but `int()` skips only the other whitespace characters. */
  predicate IsInfoSeparator(c: char)
  {
    0x1C <= c as int <= 0x1F
  }

  predicate HasInfoSeparator(s: string)
  {
    exists i :: 0 <= i < |s| && IsInfoSeparator(s[i])
  }

  /** The number a text without surrounding whitespace spells: one optional
      sign, then a digit body. */
  function ParseNumber(t: string): Option<int>
  {
    if |t| > 0 && (t[0] == '+' || t[0] == '-') then
      match ParseDigits(t[1..])
      case None => None
      case Some(n) => var v: int := n; Some(if t[0] == '-' then -v else v)
    else
      match ParseDigits(t)
      case None => None
      case Some(n) => Some(n)
  }

  /** Python's `int(s)`: surrounding whitespace other than U+001C..U+001F is
      skipped, then one optional sign and a digit body follow; anything else
      raises ValueError, here `None`. A separator character anywhere in `s`
      makes it fail: at either end `int()` does not skip it and stops there,
      and inside the stripped text it is no digit (`SeparatorNeverParses`).
      The limit on the number of digits that newer Pythons impose is not
      modelled: any digit body reads as its value. */
  function ParseInt(s: string): Option<int>
  {
    if HasInfoSeparator(s) then None else ParseNumber(Strip(s))
  }

  /** A text holding a separator character never spells a number, so `int()`
      fails on it wherever the separator stands. */
  lemma SeparatorNeverParses(t: string)
    requires HasInfoSeparator(t)
    ensures ParseNumber(t).None?
  {
    var i :| 0 <= i < |t| && IsInfoSeparator(t[i]);
    if |t| > 0 && (t[0] == '+' || t[0] == '-') {
      assert !IsDigitBody(t[1..]) by {
        assert t[1..][i - 1] == t[i];
      }
    } else {
      assert !IsDigitBody(t);
    }
  }

  /** A number padded with U+001C..U+001F on either side makes `int()` fail,
      although `strip()` would cut that padding. */
  lemma SeparatorPaddingFails(n: nat, c: char)
    requires IsInfoSeparator(c)
    ensures ParseInt([c] + NatToString(n)).None?
    ensures ParseInt(NatToString(n) + [c]).None?
  {
    assert ([c] + NatToString(n))[0] == c;
    var s := NatToString(n) + [c];
    assert s[|s| - 1] == c;
  }

  lemma {:induction false} DigitsValueOfNatToString(n: nat)
    ensures DigitsValue(NatToString(n)) == n
  {
    if n >= 10 {
      var s := NatToString(n);
      assert s[..|s| - 1] == NatToString(n / 10);
      DigitsValueOfNatToString(n / 10);
    }
  }

  lemma {:induction false} RemoveUnderscoresOfDigits(s: string)
    requires forall i :: 0 <= i < |s| ==> IsDigit(s[i])
    ensures RemoveUnderscores(s) == s
  {
    if s != [] {
      RemoveUnderscoresOfDigits(s[..|s| - 1]);
    }
  }

  /** `int(str(n)) == n`: the page number shown on the label reads back as itself. */
  lemma {:induction false} ParseIntOfNatToString(n: nat)
    ensures ParseInt(NatToString(n)) == Some(n)
  {
    var s := NatToString(n);
    assert !HasInfoSeparator(s);
    StripUnpadded(s);
    assert !(s[0] == '+' || s[0] == '-');
    assert IsDigitBody(s);
    RemoveUnderscoresOfDigits(s);
    DigitsValueOfNatToString(n);
    assert ParseDigits(s) == Some(n);
  }

  /** A string that neither starts nor ends with whitespace is its own strip. */
  lemma StripUnpadded(s: string)
    requires |s| > 0 && !IsSpace(s[0]) && !IsSpace(s[|s| - 1])
    ensures Strip(s) == s
  {
    assert LeadingSpaces(s) == 0;
    assert s[0..] == s;
    assert TrailingSpaces(s) == 0;
    assert s[..|s|] == s;
  }

  /** Whitespace in front of a string that starts with a non-space is
      counted as leading whitespace, and no more. */
  lemma {:induction false} LeadingSpacesPrefix(l: string, s: string)
    requires forall k :: 0 <= k < |l| ==> IsSpace(l[k])
    requires |s| > 0 && !IsSpace(s[0])
    ensures LeadingSpaces(l + s) == |l|
  {
    if l != [] {
      assert (l + s)[1..] == l[1..] + s;
      LeadingSpacesPrefix(l[1..], s);
    }
  }

  /** Whitespace behind a string that ends with a non-space is counted as
      trailing whitespace, and no more. */
  lemma {:induction false} TrailingSpacesSuffix(s: string, r: string)
    requires forall k :: 0 <= k < |r| ==> IsSpace(r[k])
    requires |s| > 0 && !IsSpace(s[|s| - 1])
    ensures TrailingSpaces(s + r) == |r|
  {
    if r != [] {
      assert (s + r)[..|s + r| - 1] == s + r[..|r| - 1];
      TrailingSpacesSuffix(s, r[..|r| - 1]);
    }
  }

  /** `strip()` removes exactly the whitespace put around a string that
      neither starts nor ends with whitespace. */
  lemma StripPadded(l: string, s: string, r: string)
    requires forall k :: 0 <= k < |l| ==> IsSpace(l[k])
    requires forall k :: 0 <= k < |r| ==> IsSpace(r[k])
    requires |s| > 0 && !IsSpace(s[0]) && !IsSpace(s[|s| - 1])
    ensures Strip(l + s + r) == s
  {
    var rest := (l + s + r)[|l|..];
    assert l + s + r == l + (s + r);
    LeadingSpacesPrefix(l, s + r);
    assert rest == s + r;
    TrailingSpacesSuffix(s, r);
    assert rest[..|rest| - |r|] == s;
  }

  /** Two texts without separator characters that strip to the same text read
      as the same number, or both fail: `int()` then looks only at the
      stripped text. */
  lemma ParseIntOfStrip(x: string, y: string)
    requires !HasInfoSeparator(x) && !HasInfoSeparator(y)
    requires Strip(x) == Strip(y)
    ensures ParseInt(x) == ParseInt(y)
  {
  }

  // ---------------------------------------------------------------------
  // sep.join(parts) and the split that inverts it
  // ---------------------------------------------------------------------

  /** Python's `sep.join(parts)` for a non-empty list. */
  function Join(parts: seq<string>, sep: char): string
    requires |parts| > 0
  {
    if |parts| == 1 then parts[0] else parts[0] + [sep] + Join(parts[1..], sep)
  }

  /** Index of the first occurrence of `c` in `s`. */
  function IndexOf(s: string, c: char): (i: nat)
    requires c in s
    ensures i < |s| && s[i] == c && c !in s[..i]
  {
    if s[0] == c then 0 else 1 + IndexOf(s[1..], c)
  }

  /** Python's `s.split(sep)`. */
  function Split(s: string, sep: char): (parts: seq<string>)
    ensures |parts| > 0
    decreases |s|
  {
    if sep !in s then [s]
    else
      var i := IndexOf(s, sep);
      [s[..i]] + Split(s[i + 1..], sep)
  }

  /** Joining parts that do not contain the separator and splitting again
      gives the parts back. */
  lemma {:induction false} SplitJoin(parts: seq<string>, sep: char)
    requires |parts| > 0
    requires forall j :: 0 <= j < |parts| ==> sep !in parts[j]
    ensures Split(Join(parts, sep), sep) == parts
  {
    if |parts| > 1 {
      var p := parts[0];
      var rest := Join(parts[1..], sep);
      var s := p + [sep] + rest;
      assert s[|p|] == sep;
      var i := IndexOf(s, sep);
      if i < |p| {
        assert false;
      } else if i > |p| {
        assert false;
      }
      assert s[..i] == p;
      assert s[i + 1..] == rest;
      SplitJoin(parts[1..], sep);
    }
  }
}
