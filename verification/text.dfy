/**
 * Character classes and string helpers shared by the model: the ECMAScript
 * `\s`, `\w` and `\d` classes, ASCII lower-casing, `trim`, `includes`,
 * `join`, and decimal conversion between naturals and digit strings.
 */
module Text {
  import opened Wrappers

  // ----- character classes -------------------------------------------------

  predicate IsDigit(c: char) {
    '0' <= c <= '9'
  }

  /** ECMAScript LineTerminator: LF, CR, LS and PS. */
  predicate IsLineTerminator(c: char) {
    c == '\n' || c == '\r' || c == '\U{2028}' || c == '\U{2029}'
  }

  /** ECMAScript `\s` (and what `trim` removes): WhiteSpace plus LineTerminator. */
  predicate IsSpace(c: char) {
    || c == ' ' || c == '\t' || c == '\U{000B}' || c == '\U{000C}'
    || c == '\U{00A0}' || c == '\U{FEFF}' || c == '\U{1680}'
    || ('\U{2000}' <= c <= '\U{200A}')
    || c == '\U{202F}' || c == '\U{205F}' || c == '\U{3000}'
    || IsLineTerminator(c)
  }

  /** ECMAScript `\w`: ASCII letters, digits and underscore. */
  predicate IsWordChar(c: char) {
    ('a' <= c <= 'z') || ('A' <= c <= 'Z') || IsDigit(c) || c == '_'
  }

  predicate IsUpperAscii(c: char) {
    'A' <= c <= 'Z'
  }

  function LowerChar(c: char): (r: char)
    ensures !IsUpperAscii(r)
    ensures IsUpperAscii(c) ==> r as int == c as int + 32
    ensures !IsUpperAscii(c) ==> r == c
  {
    if IsUpperAscii(c) then (c as int + 32) as char else c
  }

  /** `toLowerCase`, restricted to the ASCII letters. */
  function Lower(s: string): (r: string)
    ensures |r| == |s|
    ensures forall i :: 0 <= i < |s| ==> r[i] == LowerChar(s[i])
  {
    if |s| == 0 then [] else [LowerChar(s[0])] + Lower(s[1..])
  }

  lemma LowerAppend(a: string, b: string)
    ensures Lower(a + b) == Lower(a) + Lower(b)
  {
    assert Lower(a + b) == Lower(a) + Lower(b);
  }

  predicate NoUpper(s: string) {
    forall i :: 0 <= i < |s| ==> !IsUpperAscii(s[i])
  }

  lemma LowerIdentity(s: string)
    requires NoUpper(s)
    ensures Lower(s) == s
  {
  }

  // ----- searching -------------------------------------------------------

  predicate StartsWith(s: string, prefix: string) {
    |prefix| <= |s| && s[..|prefix|] == prefix
  }

  /** `sub` occurs in `s` starting at position `i`. */
  predicate OccursAt(s: string, sub: string, i: int) {
    0 <= i && i + |sub| <= |s| && s[i..i + |sub|] == sub
  }

  /** `s.includes(sub)`: `sub` occurs at some position of `s`. */
  predicate Contains(s: string, sub: string) {
    exists i :: 0 <= i <= |s| && OccursAt(s, sub, i)
  }

  /** An executable search for `sub`, starting at position `from`. */
  function FindFrom(s: string, sub: string, from: nat): (r: bool)
    requires from <= |s|
    ensures r <==> exists i :: from <= i && OccursAt(s, sub, i)
    decreases |s| - from
  {
    if from + |sub| > |s| then false
    else if s[from..from + |sub|] == sub then assert OccursAt(s, sub, from); true
    else FindFrom(s, sub, from + 1)
  }

  function Includes(s: string, sub: string): (r: bool)
    ensures r <==> Contains(s, sub)
  {
    FindFrom(s, sub, 0)
  }

  // ----- code points --------------------------------------------------------

  /**
   * The code points of a string, the key by which titles and ids are
   * compared (`localeCompare` is modelled as code-point order).
   */
  function Codes(s: string): (r: seq<int>)
    ensures |r| == |s|
    ensures forall i :: 0 <= i < |s| ==> r[i] == s[i] as int
  {
    seq(|s|, i requires 0 <= i < |s| => s[i] as int)
  }

  /** Different strings have different keys, so the order they induce is antisymmetric. */
  lemma CodesInjective(a: string, b: string)
    requires Codes(a) == Codes(b)
    ensures a == b
  {
    assert |a| == |Codes(a)| == |Codes(b)| == |b|;
    forall i | 0 <= i < |a| ensures a[i] == b[i] {
      assert Codes(a)[i] == Codes(b)[i];
    }
  }

  // ----- trimming and whitespace ------------------------------------------

  predicate NoSpace(s: string) {
    forall i :: 0 <= i < |s| ==> !IsSpace(s[i])
  }

  predicate AllSpace(s: string) {
    forall i :: 0 <= i < |s| ==> IsSpace(s[i])
  }

  function TrimStart(s: string): (r: string)
    ensures |r| <= |s| && r == s[|s| - |r|..]
    ensures AllSpace(s[..|s| - |r|])
    ensures |r| > 0 ==> !IsSpace(r[0])
  {
    if |s| > 0 && IsSpace(s[0]) then TrimStart(s[1..]) else s
  }

  function TrimEnd(s: string): (r: string)
    ensures |r| <= |s| && r == s[..|r|]
    ensures AllSpace(s[|r|..])
    ensures |r| > 0 ==> !IsSpace(r[|r| - 1])
  {
    if |s| > 0 && IsSpace(s[|s| - 1]) then TrimEnd(s[..|s| - 1]) else s
  }

  /** `trim`: removes leading and trailing `\s` characters. */
  function Trim(s: string): (r: string)
    ensures |r| > 0 ==> !IsSpace(r[0]) && !IsSpace(r[|r| - 1])
  {
    if |s| > 0 && IsSpace(s[0]) then Trim(s[1..]) else TrimEnd(s)
  }

  /** Trimming both ends is trimming the start and then the end. */
  lemma {:induction false} TrimBothEnds(s: string)
    ensures Trim(s) == TrimEnd(TrimStart(s))
  {
    if |s| > 0 && IsSpace(s[0]) {
      TrimBothEnds(s[1..]);
    }
  }

  lemma TrimNoSpace(s: string)
    requires NoSpace(s)
    ensures Trim(s) == s
  {
  }

  /** `trim` removes white space only: its result sits in `s` between two all-space runs. */
  lemma {:induction false} TrimSlice(s: string) returns (k: nat)
    ensures k + |Trim(s)| <= |s|
    ensures Trim(s) == s[k..k + |Trim(s)|]
    ensures AllSpace(s[..k]) && AllSpace(s[k + |Trim(s)|..])
  {
    if |s| > 0 && IsSpace(s[0]) {
      var k' := TrimSlice(s[1..]);
      k := k' + 1;
      SliceShift(s, k', |Trim(s[1..])|);
      SpacePrefixCons(s, k');
    } else {
      k := 0;
    }
  }

  lemma SliceShift(s: string, k: nat, m: nat)
    requires |s| > 0 && k + m <= |s| - 1
    ensures s[1..][k..k + m] == s[k + 1..k + 1 + m]
    ensures s[1..][k + m..] == s[k + 1 + m..]
  {
  }

  lemma SpacePrefixCons(s: string, k: nat)
    requires |s| > 0 && IsSpace(s[0]) && k < |s|
    requires AllSpace(s[1..][..k])
    ensures AllSpace(s[..k + 1])
  {
    var p, q := s[..k + 1], s[1..][..k];
    forall i | 0 <= i < |p| ensures IsSpace(p[i]) {
      if i > 0 {
        assert p[i] == q[i - 1];
      }
    }
  }

  lemma {:induction false} TrimStartSkip(a: string, x: string)
    requires AllSpace(a)
    ensures TrimStart(a + x) == TrimStart(x)
  {
    if |a| > 0 {
      assert (a + x)[1..] == a[1..] + x;
      TrimStartSkip(a[1..], x);
    } else {
      assert a + x == x;
    }
  }

  lemma {:induction false} TrimEndSkip(x: string, c: string)
    requires AllSpace(c)
    ensures TrimEnd(x + c) == TrimEnd(x)
    decreases |c|
  {
    if |c| > 0 {
      assert (x + c)[..|x + c| - 1] == x + c[..|c| - 1];
      TrimEndSkip(x, c[..|c| - 1]);
    } else {
      assert x + c == x;
    }
  }

  lemma {:induction false} TrimStartAllSpace(s: string)
    requires AllSpace(s)
    ensures TrimStart(s) == ""
  {
    if |s| > 0 {
      assert IsSpace(s[0]);
      TrimStartAllSpace(s[1..]);
    }
  }

  lemma {:induction false} TrimStartAppend(b: string, c: string)
    requires !AllSpace(b)
    ensures TrimStart(b + c) == TrimStart(b) + c
  {
    assert |b| > 0;
    if IsSpace(b[0]) {
      assert (b + c)[1..] == b[1..] + c;
      assert !AllSpace(b[1..]) by {
        var i :| 0 <= i < |b| && !IsSpace(b[i]);
        assert b[1..][i - 1] == b[i];
      }
      TrimStartAppend(b[1..], c);
    }
  }

  /** White space around a string does not change its trim. */
  lemma TrimPadded(a: string, b: string, c: string)
    requires AllSpace(a) && AllSpace(c)
    ensures Trim(a + b + c) == Trim(b)
  {
    assert a + b + c == a + (b + c);
    TrimBothEnds(a + b + c);
    TrimBothEnds(b);
    TrimStartSkip(a, b + c);
    if AllSpace(b) {
      assert AllSpace(b + c);
      TrimStartAllSpace(b + c);
      TrimStartAllSpace(b);
    } else {
      TrimStartAppend(b, c);
      TrimEndSkip(TrimStart(b), c);
    }
  }

  /** A string that neither starts nor ends with white space is its own trim. */
  lemma TrimTrimmed(s: string)
    requires |s| > 0 ==> !IsSpace(s[0]) && !IsSpace(s[|s| - 1])
    ensures Trim(s) == s
  {
    assert TrimStart(s) == s;
  }

  /** Lower-casing never creates or removes white space. */
  lemma LowerCharSpace(c: char)
    ensures IsSpace(LowerChar(c)) <==> IsSpace(c)
  {
  }

  lemma {:induction false} LowerTrimEnd(s: string)
    ensures Lower(TrimEnd(s)) == TrimEnd(Lower(s))
    decreases |s|
  {
    if |s| > 0 {
      LowerCharSpace(s[|s| - 1]);
      assert Lower(s)[..|s| - 1] == Lower(s[..|s| - 1]);
      LowerTrimEnd(s[..|s| - 1]);
    }
  }

  /** Trimming and lower-casing can be done in either order. */
  lemma {:induction false} LowerTrim(s: string)
    ensures Lower(Trim(s)) == Trim(Lower(s))
    decreases |s|
  {
    if |s| > 0 {
      LowerCharSpace(s[0]);
      assert Lower(s)[1..] == Lower(s[1..]);
      if IsSpace(s[0]) {
        LowerTrim(s[1..]);
      } else {
        LowerTrimEnd(s);
      }
    }
  }

  /** `s.replace(/\s/g, '')`. */
  function RemoveSpaces(s: string): (r: string)
    ensures NoSpace(r)
    ensures |r| <= |s|
  {
    if |s| == 0 then []
    else if IsSpace(s[0]) then RemoveSpaces(s[1..])
    else [s[0]] + RemoveSpaces(s[1..])
  }

  lemma {:induction false} RemoveSpacesAppend(a: string, b: string)
    ensures RemoveSpaces(a + b) == RemoveSpaces(a) + RemoveSpaces(b)
    decreases |a|
  {
    if |a| == 0 {
      assert a + b == b;
    } else {
      assert (a + b)[1..] == a[1..] + b;
      RemoveSpacesAppend(a[1..], b);
    }
  }

  /** Removing white space from a string without any leaves it as it is. */
  lemma {:induction false} RemoveSpacesNoSpace(s: string)
    requires NoSpace(s)
    ensures RemoveSpaces(s) == s
  {
    if |s| > 0 {
      assert !IsSpace(s[0]);
      RemoveSpacesNoSpace(s[1..]);
      assert s == [s[0]] + s[1..];
    }
  }

  // ----- joining ----------------------------------------------------------

  /** `parts.join(sep)`. */
  function Join(parts: seq<string>, sep: string): string {
    if |parts| == 0 then ""
    else if |parts| == 1 then parts[0]
    else parts[0] + sep + Join(parts[1..], sep)
  }

  // ----- splitting ----------------------------------------------------------

  /** The position of the first `c` in `s`. */
  function FirstIndex(s: string, c: char): (i: nat)
    requires c in s
    ensures i < |s| && s[i] == c && c !in s[..i]
  {
    if s[0] == c then 0 else FirstIndex(s[1..], c) + 1
  }

  /** `s.split(sep)` for a one-character separator. */
  function Split(s: string, sep: char): (r: seq<string>)
    ensures |r| >= 1
    ensures forall i :: 0 <= i < |r| ==> sep !in r[i]
    decreases |s|
  {
    if sep !in s then [s]
    else
      var i := FirstIndex(s, sep);
      [s[..i]] + Split(s[i + 1..], sep)
  }

  /** Joining the pieces with the separator gives the string back. */
  lemma {:induction false} JoinSplit(s: string, sep: char)
    ensures Join(Split(s, sep), [sep]) == s
    decreases |s|
  {
    if sep in s {
      var i := FirstIndex(s, sep);
      var rest := Split(s[i + 1..], sep);
      assert Split(s, sep) == [s[..i]] + rest;
      JoinCons(s[..i], rest, [sep]);
      JoinSplit(s[i + 1..], sep);
      assert s == s[..i] + [sep] + s[i + 1..];
    }
  }

  lemma JoinCons(p: string, rest: seq<string>, sep: string)
    requires |rest| >= 1
    ensures Join([p] + rest, sep) == p + sep + Join(rest, sep)
  {
    assert ([p] + rest)[1..] == rest;
  }

  lemma {:induction false} FirstIndexAt(s: string, c: char, k: nat)
    requires k < |s| && s[k] == c && c !in s[..k]
    ensures FirstIndex(s, c) == k
  {
    if k > 0 {
      assert s[..k][0] == s[0];
      assert s[1..][..k - 1] == s[1..k] == s[..k][1..];
      FirstIndexAt(s[1..], c, k - 1);
    }
  }

  lemma SplitCons(p: string, sep: char, rest: string)
    requires sep !in p
    ensures Split(p + [sep] + rest, sep) == [p] + Split(rest, sep)
  {
    var s := p + [sep] + rest;
    assert s[..|p|] == p;
    FirstIndexAt(s, sep, |p|);
    assert s[|p| + 1..] == rest;
  }

  /** Splitting a join of separator-free pieces gives the pieces back. */
  lemma {:induction false} SplitJoin(parts: seq<string>, sep: char)
    requires |parts| >= 1
    requires forall i :: 0 <= i < |parts| ==> sep !in parts[i]
    ensures Split(Join(parts, [sep]), sep) == parts
  {
    if |parts| == 1 {
      assert parts == [parts[0]];
    } else {
      SplitCons(parts[0], sep, Join(parts[1..], [sep]));
      SplitJoin(parts[1..], sep);
      assert parts == [parts[0]] + parts[1..];
    }
  }

  // ----- decimal numbers --------------------------------------------------

  predicate AllDigits(s: string) {
    forall i :: 0 <= i < |s| ==> IsDigit(s[i])
  }

  function DigitValue(c: char): nat
    requires IsDigit(c)
  {
    c as int - '0' as int
  }

  function DigitChar(n: nat): (c: char)
    requires n < 10
    ensures IsDigit(c) && DigitValue(c) == n
  {
    ('0' as int + n) as char
  }

  /** The value of a string of decimal digits (`parseInt(s, 10)` on such a string). */
  function DigitsValue(s: string): nat
    requires AllDigits(s)
  {
    if |s| == 0 then 0 else DigitsValue(s[..|s| - 1]) * 10 + DigitValue(s[|s| - 1])
  }

  /** `String(n)` for a natural number: its shortest decimal form. */
  function NatToString(n: nat): (r: string)
    ensures |r| >= 1 && AllDigits(r)
    ensures |r| > 1 ==> r[0] != '0'
  {
    if n < 10 then [DigitChar(n)] else NatToString(n / 10) + [DigitChar(n % 10)]
  }

  /** `String(i)` for an integer. */
  function IntToString(i: int): string {
    if i < 0 then "-" + NatToString(-i) else NatToString(i)
  }

  /** `String(n).padStart(2, '0')`. */
  function Pad2(n: nat): (r: string)
    ensures |r| >= 2 && AllDigits(r)
  {
    if n < 10 then "0" + NatToString(n) else NatToString(n)
  }

  /** The longest prefix of `s` made of digits. */
  function DigitPrefix(s: string): (r: string)
    ensures |r| <= |s| && AllDigits(r) && r == s[..|r|]
    ensures |r| < |s| ==> !IsDigit(s[|r|])
  {
    if |s| > 0 && IsDigit(s[0]) then [s[0]] + DigitPrefix(s[1..]) else ""
  }

  /**
   * `parseInt(s)` (radix 10): leading white space, an optional sign, then
   * the longest run of digits; NaN (None) when there is no digit.
   */
  function ParseInt(s: string): Option<int> {
    var t := TrimStart(s);
    var negative := |t| > 0 && t[0] == '-';
    var u := if |t| > 0 && (t[0] == '-' || t[0] == '+') then t[1..] else t;
    var digits := DigitPrefix(u);
    if |digits| == 0 then None
    else
      var v: int := DigitsValue(digits);
      Some(if negative then -v else v)
  }

  lemma ParseIntOfNatToString(n: nat)
    ensures ParseInt(NatToString(n)) == Some(n)
  {
    var s := NatToString(n);
    assert TrimStart(s) == s;
    assert DigitPrefix(s) == s by {
      DigitPrefixOfDigits(s);
    }
    ValueOfNatToString(n);
  }

  lemma {:induction false} DigitPrefixOfDigits(s: string)
    requires AllDigits(s)
    ensures DigitPrefix(s) == s
  {
    if |s| > 0 {
      DigitPrefixOfDigits(s[1..]);
    }
  }

  /** A string that starts with something other than white space, a sign or a digit is NaN. */
  lemma ParseIntNaN(s: string)
    requires |s| > 0 && !IsSpace(s[0]) && !IsDigit(s[0]) && s[0] != '-' && s[0] != '+'
    ensures ParseInt(s) == None
  {
  }

  lemma {:induction false} ValueOfNatToString(n: nat)
    ensures DigitsValue(NatToString(n)) == n
  {
    if n >= 10 {
      var r := NatToString(n);
      assert r[..|r| - 1] == NatToString(n / 10);
      ValueOfNatToString(n / 10);
    }
  }

  lemma {:induction false} DigitsValueLeading(s: string)
    requires AllDigits(s) && |s| >= 1
    ensures DigitsValue(s) >= DigitValue(s[0])
  {
    if |s| > 1 {
      DigitsValueLeading(s[..|s| - 1]);
    }
  }

  lemma {:induction false} NatToStringOfValue(s: string)
    requires AllDigits(s) && |s| >= 1
    requires |s| == 1 || s[0] != '0'
    ensures NatToString(DigitsValue(s)) == s
    decreases |s|
  {
    if |s| > 1 {
      var t := s[..|s| - 1];
      DigitsValueLeading(t);
      NatToStringOfValue(t);
      assert s == t + [s[|s| - 1]];
    }
  }

  lemma NatToStringLength(n: nat)
    ensures n < 10 ==> |NatToString(n)| == 1
    ensures 10 <= n < 100 ==> |NatToString(n)| == 2
    ensures 1000 <= n < 10000 ==> |NatToString(n)| == 4
  {
    if 1000 <= n < 10000 {
      var m := n / 10;
      assert 100 <= m < 1000;
      assert |NatToString(m / 10)| == 2;
      assert |NatToString(m)| == 3;
    }
  }

  lemma FourDigitValue(s: string)
    requires |s| == 4 && AllDigits(s)
    ensures DigitsValue(s) == DigitValue(s[0]) * 1000 + DigitValue(s[1]) * 100
                              + DigitValue(s[2]) * 10 + DigitValue(s[3])
  {
    assert s[..1][..0] == [];
    assert DigitsValue(s[..1]) == DigitValue(s[0]);
    assert s[..2][..1] == s[..1];
    assert DigitsValue(s[..2]) == DigitValue(s[0]) * 10 + DigitValue(s[1]);
    assert s[..3][..2] == s[..2];
    assert DigitsValue(s[..3]) == DigitValue(s[0]) * 100 + DigitValue(s[1]) * 10 + DigitValue(s[2]);
    assert s[..4] == s;
  }

  lemma TwoDigitValue(s: string)
    requires |s| == 2 && AllDigits(s)
    ensures DigitsValue(s) == DigitValue(s[0]) * 10 + DigitValue(s[1])
  {
    assert s[..1][..0] == [];
    assert DigitsValue(s[..1]) == DigitValue(s[0]);
  }

  lemma Pad2Round(s: string)
    requires |s| == 2 && AllDigits(s)
    ensures Pad2(DigitsValue(s)) == s
  {
    var v := DigitsValue(s);
    TwoDigitValue(s);
    if s[0] == '0' {
      assert v < 10;
      assert Pad2(v) == "0" + [DigitChar(v)];
    } else {
      NatToStringOfValue(s);
    }
  }

  lemma Pad2Value(n: nat)
    requires n < 100
    ensures |Pad2(n)| == 2 && DigitsValue(Pad2(n)) == n
  {
    NatToStringLength(n);
    var p := Pad2(n);
    if n < 10 {
      assert p[..1] == "0";
      assert DigitsValue(p[..1]) == 0 by {
        assert p[..1][..0] == [];
      }
    } else {
      ValueOfNatToString(n);
    }
  }
}
