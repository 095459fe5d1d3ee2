/**
 The Python string operations the row extractor relies on: `str.isspace`,
 `str.strip()`, `str.replace(c, "")`, `str.split(c)`, and the decimal digits
 that `int(...)` reads.
 */
module Text {
  import opened Wrappers

  /** Python's `str.isspace`: the characters `str.strip()` removes by default. */
  predicate IsSpace(c: char) {
    || ('\t' <= c <= '\r')
    || ('\U{1C}' <= c <= '\U{1F}')
    || c == ' ' || c == '\U{85}' || c == '\U{A0}' || c == '\U{1680}'
    || ('\U{2000}' <= c <= '\U{200A}')
    || c == '\U{2028}' || c == '\U{2029}' || c == '\U{202F}' || c == '\U{205F}' || c == '\U{3000}'
  }

  predicate AllSpace(s: string) {
    forall i :: 0 <= i < |s| ==> IsSpace(s[i])
  }

  /** The first index at or after `i` that does not hold whitespace, or `|s|`. */
  function SkipSpaces(s: string, i: nat): (k: nat)
    requires i <= |s|
    ensures i <= k <= |s|
    ensures forall j :: i <= j < k ==> IsSpace(s[j])
    ensures k < |s| ==> !IsSpace(s[k])
    decreases |s| - i
  {
    if i < |s| && IsSpace(s[i]) then SkipSpaces(s, i + 1) else i
  }

  /**
   The index just past the last character before `j` that does not hold
   whitespace, or `lo` when there is none at or after `lo`.
   */
  function SkipSpacesBack(s: string, lo: nat, j: nat): (k: nat)
    requires lo <= j <= |s|
    ensures lo <= k <= j
    ensures forall i :: k <= i < j ==> IsSpace(s[i])
    ensures k > lo ==> !IsSpace(s[k - 1])
    decreases j
  {
    if j > lo && IsSpace(s[j - 1]) then SkipSpacesBack(s, lo, j - 1) else j
  }

  /**
   Python's `s.strip()`: the result is a slice of `s` that neither starts nor
   ends with whitespace, and everything cut off on either side is whitespace.
   */
  function Strip(s: string): (r: string)
    ensures r == [] || (!IsSpace(r[0]) && !IsSpace(r[|r| - 1]))
    ensures exists a :: 0 <= a <= |s| - |r| && r == s[a..a + |r|] && AllSpace(s[..a]) && AllSpace(s[a + |r|..])
  {
    var a := SkipSpaces(s, 0);
    var e := SkipSpacesBack(s, a, |s|);
    assert AllSpace(s[..a]) by {
      assert forall i :: 0 <= i < a ==> s[..a][i] == s[i];
    }
    assert AllSpace(s[e..]) by {
      assert forall i :: 0 <= i < |s| - e ==> s[e..][i] == s[e + i];
    }
    assert s[a..e] == [] || (!IsSpace(s[a..e][0]) && !IsSpace(s[a..e][e - a - 1])) by {
      if a < e {
        assert s[a..e][0] == s[a] && s[a..e][e - a - 1] == s[e - 1];
      }
    }
    s[a..e]
  }

  /** Every character of `s` is whitespace or survives `Strip`, and `Strip` adds none. */
  lemma StripCover(s: string)
    ensures forall i :: 0 <= i < |s| ==> IsSpace(s[i]) || s[i] in Strip(s)
    ensures forall x :: x in Strip(s) ==> x in s
  {
    var r := Strip(s);
    var a :| 0 <= a <= |s| - |r| && r == s[a..a + |r|] && AllSpace(s[..a]) && AllSpace(s[a + |r|..]);
    PaddedSliceCover(s, r, a);
  }

  lemma PaddedSliceCover(s: string, r: string, a: nat)
    requires a + |r| <= |s| && r == s[a..a + |r|]
    requires AllSpace(s[..a]) && AllSpace(s[a + |r|..])
    ensures forall i :: 0 <= i < |s| ==> IsSpace(s[i]) || s[i] in r
    ensures forall x :: x in r ==> x in s
  {
    forall i | 0 <= i < |s| ensures IsSpace(s[i]) || s[i] in r {
      if i < a {
        assert s[..a][i] == s[i];
      } else if i < a + |r| {
        assert r[i - a] == s[i];
      } else {
        assert s[a + |r|..][i - a - |r|] == s[i];
      }
    }
    forall x | x in r ensures x in s {
      var j :| 0 <= j < |r| && r[j] == x;
      assert s[a + j] == x;
    }
  }

  /** `SkipSpaces` stops at the first index that does not hold whitespace. */
  lemma SkipSpacesAt(s: string, p: nat)
    requires p <= |s|
    requires forall j :: 0 <= j < p ==> IsSpace(s[j])
    requires p < |s| ==> !IsSpace(s[p])
    ensures SkipSpaces(s, 0) == p
  {
  }

  /** `SkipSpacesBack` stops just past the last index that does not hold whitespace. */
  lemma SkipSpacesBackAt(s: string, lo: nat, e: nat)
    requires lo <= e <= |s|
    requires forall j :: e <= j < |s| ==> IsSpace(s[j])
    requires e > lo ==> !IsSpace(s[e - 1])
    ensures SkipSpacesBack(s, lo, |s|) == e
  {
  }

  /** Surrounding whitespace is exactly what `Strip` takes away. */
  lemma StripPadded(pre: string, t: string, post: string)
    requires AllSpace(pre) && AllSpace(post)
    requires t == [] || (!IsSpace(t[0]) && !IsSpace(t[|t| - 1]))
    ensures Strip(pre + t + post) == t
  {
    var s := pre + t + post;
    var e := |pre| + |t|;
    assert forall j :: 0 <= j < |pre| ==> IsSpace(s[j]) by {
      assert forall j :: 0 <= j < |pre| ==> s[j] == pre[j];
    }
    assert forall j :: e <= j < |s| ==> IsSpace(s[j]) by {
      assert forall j :: e <= j < |s| ==> s[j] == post[j - e];
    }
    if t == [] {
      SkipSpacesAt(s, |s|);
      SkipSpacesBackAt(s, |s|, |s|);
    } else {
      assert s[|pre|] == t[0] && s[e - 1] == t[|t| - 1];
      SkipSpacesAt(s, |pre|);
      SkipSpacesBackAt(s, |pre|, e);
      assert s[|pre|..e] == t;
    }
  }

  /** Python's `s.replace(c, "")` for a single character `c`. */
  function RemoveChar(s: string, c: char): (r: string)
    ensures c !in r
  {
    if s == [] then []
    else
      assert s == [s[0]] + s[1..];
      (if s[0] == c then [] else [s[0]]) + RemoveChar(s[1..], c)
  }

  /** Removing a character that does not occur changes nothing. */
  lemma {:induction false} RemoveCharAbsent(s: string, c: char)
    requires c !in s
    ensures RemoveChar(s, c) == s
  {
    if s != [] {
      assert c !in s[1..];
      RemoveCharAbsent(s[1..], c);
      assert s == [s[0]] + s[1..];
    }
  }

  /** `RemoveChar` introduces no character. */
  lemma {:induction false} RemoveCharAddsNothing(s: string, c: char, x: char)
    requires x !in s
    ensures x !in RemoveChar(s, c)
  {
    if s != [] {
      assert x !in s[1..];
      RemoveCharAddsNothing(s[1..], c, x);
    }
  }

  /** `RemoveChar` keeps every other character. */
  lemma {:induction false} RemoveCharKeeps(s: string, c: char)
    ensures forall i :: 0 <= i < |s| && s[i] != c ==> s[i] in RemoveChar(s, c)
  {
    if s != [] {
      RemoveCharKeeps(s[1..], c);
      forall i | 0 <= i < |s| && s[i] != c ensures s[i] in RemoveChar(s, c) {
        if i > 0 {
          assert s[i] == s[1..][i - 1];
        }
      }
    }
  }

  /** The characters of `RemoveChar(s, c)` are exactly those of `s` other than `c`. */
  lemma RemoveCharMembers(s: string, c: char)
    ensures forall x :: x in RemoveChar(s, c) <==> x in s && x != c
  {
    RemoveCharKeeps(s, c);
    forall x | x in RemoveChar(s, c) ensures x in s {
      if x !in s {
        RemoveCharAddsNothing(s, c, x);
      }
    }
  }

  lemma {:induction false} RemoveCharConcat(a: string, b: string, c: char)
    ensures RemoveChar(a + b, c) == RemoveChar(a, c) + RemoveChar(b, c)
  {
    if a != [] {
      var ab := a + b;
      assert ab[0] == a[0] && ab[1..] == a[1..] + b;
      var head: string := if a[0] == c then [] else [a[0]];
      assert RemoveChar(ab, c) == head + RemoveChar(a[1..] + b, c);
      assert RemoveChar(a, c) == head + RemoveChar(a[1..], c);
      RemoveCharConcat(a[1..], b, c);
    } else {
      assert a + b == b;
    }
  }

  /** The number of occurrences of `c` in `s`. */
  function Count(s: string, c: char): nat {
    if s == [] then 0 else (if s[0] == c then 1 else 0) + Count(s[1..], c)
  }

  /**
   Python's `s.split(c)`: one more field than there are separators, and no
   field contains the separator.
   */
  function Split(s: string, c: char): (fields: seq<string>)
    ensures |fields| == Count(s, c) + 1
    ensures forall i :: 0 <= i < |fields| ==> c !in fields[i]
  {
    if s == [] then [[]]
    else
      var rest := Split(s[1..], c);
      if s[0] == c then [[]] + rest else [[s[0]] + rest[0]] + rest[1..]
  }

  /** Python's `c.join(fields)`, the inverse of `Split`. */
  function Join(fields: seq<string>, c: char): string
    requires |fields| >= 1
  {
    if |fields| == 1 then fields[0] else fields[0] + [c] + Join(fields[1..], c)
  }

  lemma {:induction false} JoinSplit(s: string, c: char)
    ensures Join(Split(s, c), c) == s
  {
    if s != [] {
      var rest := Split(s[1..], c);
      JoinSplit(s[1..], c);
      if s[0] == c {
        assert ([[]] + rest)[1..] == rest;
      } else if |rest| == 1 {
        assert s == [s[0]] + s[1..];
      } else {
        var fields := [[s[0]] + rest[0]] + rest[1..];
        assert fields[1..] == rest[1..];
        assert Join(rest, c) == rest[0] + [c] + Join(rest[1..], c);
        assert s == [s[0]] + s[1..];
      }
    }
  }

  lemma {:induction false} SplitWithoutSeparator(x: string, c: char)
    requires c !in x
    ensures Split(x, c) == [x]
  {
    if x != [] {
      SplitWithoutSeparator(x[1..], c);
      assert x == [x[0]] + x[1..];
    }
  }

  /** Splitting at the first separator peels off the field before it. */
  lemma {:induction false} SplitAtFirstSeparator(x: string, c: char, y: string)
    requires c !in x
    ensures Split(x + [c] + y, c) == [x] + Split(y, c)
  {
    var s := x + [c] + y;
    if x == [] {
      assert s[1..] == y;
    } else {
      assert s[1..] == x[1..] + [c] + y;
      SplitAtFirstSeparator(x[1..], c, y);
      assert x == [x[0]] + x[1..];
    }
  }

  predicate IsDigit(ch: char) {
    '0' <= ch <= '9'
  }

  predicate AllDigits(s: string) {
    forall i :: 0 <= i < |s| ==> IsDigit(s[i])
  }

  /**
   The whitespace CPython's `int()` skips around the digits. Outside ASCII it
   is every `str.isspace` character; inside ASCII it is only `\t`..`\r` and
   the space, so the information separators U+001C-U+001F, which `str.strip()`
   removes, are not skipped and make `int` raise.
   */
  predicate IsIntSpace(c: char) {
    IsSpace(c) && !IsInfoSeparator(c)
  }

  predicate IsInfoSeparator(c: char) {
    '\U{1C}' <= c <= '\U{1F}'
  }

  predicate AllIntSpace(s: string) {
    forall i :: 0 <= i < |s| ==> IsIntSpace(s[i])
  }

  predicate NoInfoSeparator(s: string) {
    forall i :: 0 <= i < |s| ==> !IsInfoSeparator(s[i])
  }

  /**
   `int(s)` on texts of ASCII digits: `None` where `int` raises. The digits
   are what `Strip` leaves; the text parses when they are a non-empty run of
   digits and `s` holds no information separator, for then everything `Strip`
   cut off is whitespace `int` skips too.
   */
  function IntOf(s: string): Option<nat> {
    var digits := Strip(s);
    if digits != [] && AllDigits(digits) && NoInfoSeparator(s) then Some(DigitsValue(digits)) else None
  }

  lemma NoInfoSeparatorConcat(a: string, b: string)
    requires NoInfoSeparator(a) && NoInfoSeparator(b)
    ensures NoInfoSeparator(a + b)
  {
    forall i | 0 <= i < |a + b| ensures !IsInfoSeparator((a + b)[i]) {
      if i < |a| {
        assert (a + b)[i] == a[i];
      } else {
        assert (a + b)[i] == b[i - |a|];
      }
    }
  }

  /** A run of digits between whitespace `int` skips parses to its value. */
  lemma IntOfPadded(pre: string, d: string, post: string)
    requires AllIntSpace(pre) && AllIntSpace(post)
    requires d != [] && AllDigits(d)
    ensures IntOf(pre + d + post) == Some(DigitsValue(d))
  {
    assert AllSpace(pre) && AllSpace(post);
    assert !IsSpace(d[0]) && !IsSpace(d[|d| - 1]);
    StripPadded(pre, d, post);
    assert NoInfoSeparator(pre) && NoInfoSeparator(d) && NoInfoSeparator(post);
    NoInfoSeparatorConcat(pre, d);
    NoInfoSeparatorConcat(pre + d, post);
  }

  /** A bare run of digits parses to its value. */
  lemma IntOfDigits(d: string)
    requires d != [] && AllDigits(d)
    ensures IntOf(d) == Some(DigitsValue(d))
  {
    StripDigits(d);
    assert NoInfoSeparator(d);
  }

  /** Whitespace in a text without information separators is whitespace `int` skips. */
  lemma SpacePrefixIsIntSpace(s: string, a: nat)
    requires a <= |s|
    requires forall i :: 0 <= i < a ==> IsSpace(s[i])
    requires NoInfoSeparator(s)
    ensures AllIntSpace(s[..a])
  {
    forall i | 0 <= i < a ensures IsIntSpace(s[..a][i]) {
      assert s[..a][i] == s[i];
    }
  }

  lemma SpaceSuffixIsIntSpace(s: string, b: nat)
    requires b <= |s|
    requires forall i :: b <= i < |s| ==> IsSpace(s[i])
    requires NoInfoSeparator(s)
    ensures AllIntSpace(s[b..])
  {
    forall i | 0 <= i < |s| - b ensures IsIntSpace(s[b..][i]) {
      assert s[b..][i] == s[b + i];
    }
  }

  /**
   What `int` accepts is exactly that shape: whitespace it skips, a
   non-empty run of digits, whitespace it skips.
   */
  lemma IntOfShape(s: string)
    requires IntOf(s).Some?
    ensures exists a, b :: (0 <= a < b <= |s| && AllIntSpace(s[..a]) && AllDigits(s[a..b])
                           && AllIntSpace(s[b..]) && IntOf(s) == Some(DigitsValue(s[a..b])))
  {
    var a, b := StripBounds(s);
    assert AllIntSpace(s[..a]) && AllIntSpace(s[b..]) by {
      assert NoInfoSeparator(s);
      SpacePrefixIsIntSpace(s, a);
      SpaceSuffixIsIntSpace(s, b);
    }
  }

  /** Where the text `Strip` keeps starts and ends. */
  lemma StripBounds(s: string) returns (a: nat, b: nat)
    ensures a <= b <= |s| && Strip(s) == s[a..b]
    ensures forall i :: 0 <= i < a ==> IsSpace(s[i])
    ensures forall i :: b <= i < |s| ==> IsSpace(s[i])
  {
    a := SkipSpaces(s, 0);
    b := SkipSpacesBack(s, a, |s|);
  }

  /** A run of digits has no whitespace to strip. */
  lemma StripDigits(d: string)
    requires d != [] && AllDigits(d)
    ensures Strip(d) == d
  {
    assert [] + d + [] == d;
    assert !IsSpace(d[0]) && !IsSpace(d[|d| - 1]);
    StripPadded([], d, []);
  }

  function Pow10(n: nat): nat {
    if n == 0 then 1 else 10 * Pow10(n - 1)
  }

  /** The value of a string of decimal digits, read left to right. */
  function DigitsValue(s: string): nat
    requires AllDigits(s)
  {
    if s == [] then 0
    else DigitsValue(s[..|s| - 1]) * 10 + (s[|s| - 1] as int - '0' as int)
  }

  lemma {:induction false} DigitsValueConcat(a: string, b: string)
    requires AllDigits(a) && AllDigits(b)
    ensures AllDigits(a + b)
    ensures DigitsValue(a + b) == DigitsValue(a) * Pow10(|b|) + DigitsValue(b)
  {
    assert AllDigits(a + b);
    if b != [] {
      var b' := b[..|b| - 1];
      var d := b[|b| - 1] as int - '0' as int;
      assert (a + b)[..|a + b| - 1] == a + b';
      DigitsValueConcat(a, b');
      var va, vb, p := DigitsValue(a), DigitsValue(b'), Pow10(|b'|);
      assert DigitsValue(a + b) == DigitsValue(a + b') * 10 + d;
      assert DigitsValue(b) == vb * 10 + d;
      assert Pow10(|b|) == p * 10;
      AppendDigitArithmetic(va, vb, p, d);
    } else {
      assert a + b == a;
    }
  }

  lemma AppendDigitArithmetic(va: int, vb: int, p: int, d: int)
    ensures (va * p + vb) * 10 + d == va * (p * 10) + (vb * 10 + d)
  {
  }

  function DigitChar(d: nat): (ch: char)
    requires d < 10
    ensures IsDigit(ch) && ch as int - '0' as int == d
  {
    ('0' as int + d) as char
  }

  /** Python's `str(n)` for a natural number. */
  function Decimal(n: nat): (s: string)
    ensures s != [] && AllDigits(s)
  {
    if n < 10 then [DigitChar(n)] else Decimal(n / 10) + [DigitChar(n % 10)]
  }

  lemma {:induction false} DecimalValue(n: nat)
    ensures DigitsValue(Decimal(n)) == n
  {
    if n >= 10 {
      var s := Decimal(n);
      assert s[..|s| - 1] == Decimal(n / 10);
      DecimalValue(n / 10);
    }
  }
}
