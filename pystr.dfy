/**
 * The few Python string operations the request pipeline relies on:
 * `str.strip`, `str.split(sep)` with a one-character separator, `str.upper`
 * and the decimal rendering of a non-negative `int` inside an f-string.
 */
module PyStr {

  /** Python's `str.isspace()`: the characters `str.strip()` removes when called without arguments. */
  predicate IsSpace(c: char) {
    ('\t' <= c <= '\r') || ('\U{1C}' <= c <= '\U{1F}') || c == ' ' || c == '\U{85}' || c == '\U{A0}'
    || c == '\U{1680}' || ('\U{2000}' <= c <= '\U{200A}') || c == '\U{2028}' || c == '\U{2029}'
    || c == '\U{202F}' || c == '\U{205F}' || c == '\U{3000}'
  }

  /** The argument of `str.strip`: none (Unicode whitespace) or an explicit set of characters. */
  datatype StripChars = Whitespace | Chars(chars: set<char>)

  /** Whether `strip` with argument `cs` removes `c`. */
  predicate Drops(cs: StripChars, c: char) {
    if cs.Whitespace? then IsSpace(c) else c in cs.chars
  }

  /** Removes every leading character that `drop` names. */
  function StripLeft(s: string, drop: StripChars): (r: string)
  {
    if |s| > 0 && Drops(drop, s[0]) then StripLeft(s[1..], drop) else s
  }

  /** `StripLeft` keeps a suffix, every character cut away is dropped, and the suffix does not start with one. */
  lemma {:induction false} StripLeftSuffix(s: string, drop: StripChars)
    ensures var r := StripLeft(s, drop);
      |r| <= |s| && r == s[|s| - |r|..]
      && (forall k :: 0 <= k < |s| - |r| ==> Drops(drop, s[k]))
      && (r == [] || !Drops(drop, r[0]))
  {
    if |s| > 0 && Drops(drop, s[0]) {
      StripLeftSuffix(s[1..], drop);
    }
  }

  /** Removes every trailing character that `drop` names. */
  function StripRight(s: string, drop: StripChars): (r: string)
  {
    if |s| > 0 && Drops(drop, s[|s| - 1]) then StripRight(s[..|s| - 1], drop) else s
  }

  /** `StripRight` keeps a prefix, every character cut away is dropped, and the prefix does not end with one. */
  lemma {:induction false} StripRightPrefix(s: string, drop: StripChars)
    ensures var r := StripRight(s, drop);
      |r| <= |s| && r == s[..|r|]
      && (forall k :: |r| <= k < |s| ==> Drops(drop, s[k]))
      && (r == [] || !Drops(drop, r[|r| - 1]))
  {
    if |s| > 0 && Drops(drop, s[|s| - 1]) {
      StripRightPrefix(s[..|s| - 1], drop);
    }
  }

  /** Python's `s.strip(chars)`: leading, then trailing, dropped characters removed. */
  function Strip(s: string, drop: StripChars): string
  {
    StripRight(StripLeft(s, drop), drop)
  }

  /**
   * The strip is the longest slice of `s` that neither starts nor ends with
   * a dropped character, everything cut away being dropped.
   */
  lemma StripSlice(s: string, drop: StripChars)
    ensures var r := Strip(s, drop);
      var i := |s| - |StripLeft(s, drop)|;
      (r == [] || (!Drops(drop, r[0]) && !Drops(drop, r[|r| - 1])))
      && 0 <= i && i + |r| <= |s| && r == s[i..i + |r|]
      && (forall k :: 0 <= k < i ==> Drops(drop, s[k]))
      && (forall k :: i + |r| <= k < |s| ==> Drops(drop, s[k]))
  {
    var l := StripLeft(s, drop);
    StripLeftSuffix(s, drop);
    StripRightPrefix(l, drop);
  }

  /** A string that neither starts nor ends with a dropped character is its own strip. */
  lemma StripUnchanged(s: string, drop: StripChars)
    requires s == [] || (!Drops(drop, s[0]) && !Drops(drop, s[|s| - 1]))
    ensures Strip(s, drop) == s
  {
    assert StripLeft(s, drop) == s;
  }

  /** Number of occurrences of `c` in `s`. */
  function CountChar(s: string, c: char): nat {
    if s == [] then 0 else (if s[0] == c then 1 else 0) + CountChar(s[1..], c)
  }

  lemma {:induction false} CountCharAbsent(s: string, c: char)
    requires c !in s
    ensures CountChar(s, c) == 0
  {
    if s != [] {
      CountCharAbsent(s[1..], c);
    }
  }

  /** Python's `sep.join(parts)` for a one-character separator. */
  function JoinBy(parts: seq<string>, sep: char): string {
    if |parts| == 0 then ""
    else if |parts| == 1 then parts[0]
    else parts[0] + [sep] + JoinBy(parts[1..], sep)
  }

  /** Joining three pieces puts one separator between each neighbouring pair. */
  lemma JoinByThree(parts: seq<string>, sep: char)
    requires |parts| == 3
    ensures JoinBy(parts, sep) == parts[0] + [sep] + parts[1] + [sep] + parts[2]
  {
    assert parts[1..][1..] == [parts[2]];
    assert JoinBy(parts[1..], sep) == parts[1] + [sep] + parts[2];
    assert parts[0] + [sep] + (parts[1] + [sep] + parts[2]) == parts[0] + [sep] + parts[1] + [sep] + parts[2];
  }

  /** Python's `s.split(sep)` for a one-character separator: one piece more than there are separators. */
  function Split(s: string, sep: char): (parts: seq<string>)
    ensures |parts| == CountChar(s, sep) + 1
  {
    if s == [] then [""]
    else
      var rest := Split(s[1..], sep);
      if s[0] == sep then
        [""] + rest
      else
        [[s[0]] + rest[0]] + rest[1..]
  }

  /** No piece holds the separator, and joining the pieces back gives `s` (empty pieces included). */
  lemma {:induction false} SplitPieces(s: string, sep: char)
    ensures var parts := Split(s, sep);
      (forall i :: 0 <= i < |parts| ==> sep !in parts[i])
      && JoinBy(parts, sep) == s
  {
    if s != [] {
      var rest := Split(s[1..], sep);
      SplitPieces(s[1..], sep);
      if s[0] != sep {
        var parts := [[s[0]] + rest[0]] + rest[1..];
        assert parts[1..] == rest[1..];
        assert s == [s[0]] + s[1..];
      }
    }
  }

  /** Splitting a piece free of separators, followed by one separator, peels that piece off. */
  lemma {:induction false} SplitPrefix(p: string, t: string, sep: char)
    requires sep !in p
    ensures Split(p + [sep] + t, sep) == [p] + Split(t, sep)
  {
    var s := p + [sep] + t;
    if p == [] {
      assert s[1..] == t;
    } else {
      assert s[1..] == p[1..] + [sep] + t;
      SplitPrefix(p[1..], t, sep);
      assert [p[0]] + p[1..] == p;
    }
  }

  /** `split` undoes `join` when no piece contains the separator. */
  lemma {:induction false} SplitJoinBy(parts: seq<string>, sep: char)
    requires |parts| >= 1
    requires forall i :: 0 <= i < |parts| ==> sep !in parts[i]
    ensures Split(JoinBy(parts, sep), sep) == parts
  {
    if |parts| == 1 {
      var p := parts[0];
      CountCharAbsent(p, sep);
      SplitPieces(p, sep);
      assert Split(p, sep) == [Split(p, sep)[0]];
    } else {
      SplitJoinBy(parts[1..], sep);
      SplitPrefix(parts[0], JoinBy(parts[1..], sep), sep);
      assert [parts[0]] + parts[1..] == parts;
    }
  }

  /** ASCII case mapping of one character. */
  function UpperChar(c: char): char {
    if 'a' <= c <= 'z' then (c as int - 32) as char else c
  }

  /** Python's `str.upper()`, for the ASCII letters. */
  function Upper(s: string): string {
    if s == [] then [] else [UpperChar(s[0])] + Upper(s[1..])
  }

  /** `Upper` maps every character on its own and keeps the length. */
  lemma {:induction false} UpperAt(s: string)
    ensures |Upper(s)| == |s|
    ensures forall i :: 0 <= i < |s| ==> Upper(s)[i] == UpperChar(s[i])
  {
    if s != [] {
      UpperAt(s[1..]);
    }
  }

  /** Upper-casing twice is upper-casing once. */
  lemma UpperIdempotent(s: string)
    ensures Upper(Upper(s)) == Upper(s)
  {
    UpperAt(s);
    UpperAt(Upper(s));
  }

  /** The character for a decimal digit. */
  function DigitChar(d: nat): (c: char)
    requires d < 10
    ensures '0' <= c <= '9' && c as int - '0' as int == d
  {
    ('0' as int + d) as char
  }

  predicate IsDigits(s: string) {
    forall i :: 0 <= i < |s| ==> '0' <= s[i] <= '9'
  }

  /** Python's `str(n)` for `n >= 0`, as an f-string renders it. */
  function NatToDecimal(n: nat): (r: string)
    ensures |r| >= 1 && IsDigits(r)
    ensures |r| > 1 ==> r[0] != '0'
  {
    if n < 10 then [DigitChar(n)] else NatToDecimal(n / 10) + [DigitChar(n % 10)]
  }

  /** Python's `int(s)` for a string of decimal digits. */
  function DecimalValue(s: string): nat
    requires IsDigits(s)
  {
    if s == [] then 0 else 10 * DecimalValue(s[..|s| - 1]) + (s[|s| - 1] as int - '0' as int)
  }

  /** Reading back the rendered digits gives the number again. */
  lemma {:induction false} DecimalRoundTrip(n: nat)
    ensures DecimalValue(NatToDecimal(n)) == n
  {
    if n >= 10 {
      var s := NatToDecimal(n);
      assert s[..|s| - 1] == NatToDecimal(n / 10);
      DecimalRoundTrip(n / 10);
    }
  }
}
