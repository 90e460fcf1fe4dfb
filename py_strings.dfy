/**
 * The Python `str` operations that genome_analyzer.py relies on, over
 * `string` (a sequence of code points): `strip()`, `split()[0]`, `int()`,
 * the `in` test, `endswith()` and `rsplit('.', 1)[0]`.
 */
module PyStrings {
  import opened Wrappers

  /** `c.isspace()`: ASCII whitespace, the separators 0x1C-0x1F and the Unicode spaces. */
  predicate IsSpace(c: char)
  {
    var n := c as int;
    n == 0x20 || 0x09 <= n <= 0x0D || 0x1C <= n <= 0x1F || n == 0x85 || n == 0xA0
    || n == 0x1680 || 0x2000 <= n <= 0x200A || n == 0x2028 || n == 0x2029
    || n == 0x202F || n == 0x205F || n == 0x3000
  }

  /** `s.lstrip()`: the suffix left after dropping leading whitespace. */
  function TrimStart(s: string): (r: string)
    ensures |r| <= |s|
  {
    if s != [] && IsSpace(s[0]) then TrimStart(s[1..]) else s
  }

  /** Everything `lstrip()` drops is whitespace, and what it keeps does not start with any. */
  lemma {:induction false} TrimStartShape(s: string)
    ensures TrimStart(s) == s[|s| - |TrimStart(s)|..]
    ensures forall k :: 0 <= k < |s| - |TrimStart(s)| ==> IsSpace(s[k])
    ensures TrimStart(s) != [] ==> !IsSpace(TrimStart(s)[0])
  {
    if s != [] && IsSpace(s[0]) {
      TrimStartShape(s[1..]);
      forall k | 0 < k < |s| - |TrimStart(s)| ensures IsSpace(s[k]) {
        assert s[k] == s[1..][k - 1];
      }
    }
  }

  /** `s.rstrip()`: the prefix left after dropping trailing whitespace. */
  function TrimEnd(s: string): (r: string)
    ensures |r| <= |s|
  {
    if s != [] && IsSpace(s[|s| - 1]) then TrimEnd(s[..|s| - 1]) else s
  }

  /** Everything `rstrip()` drops is whitespace, and what it keeps does not end with any. */
  lemma {:induction false} TrimEndShape(s: string)
    ensures TrimEnd(s) == s[..|TrimEnd(s)|]
    ensures forall k :: |TrimEnd(s)| <= k < |s| ==> IsSpace(s[k])
    ensures TrimEnd(s) != [] ==> !IsSpace(TrimEnd(s)[|TrimEnd(s)| - 1])
  {
    if s != [] && IsSpace(s[|s| - 1]) {
      TrimEndShape(s[..|s| - 1]);
      forall k | |TrimEnd(s)| <= k < |s| - 1 ensures IsSpace(s[k]) {
        assert s[k] == s[..|s| - 1][k];
      }
    }
  }

  /** `s.strip()`. */
  function Strip(s: string): string
  {
    TrimEnd(TrimStart(s))
  }

  /**
   * `strip()` keeps a contiguous piece of `s`: what it drops at either end is
   * whitespace, and what it keeps neither starts nor ends with whitespace.
   */
  lemma StripShape(s: string)
    ensures exists lead :: StrippedAt(s, Strip(s), lead)
  {
    var t := TrimStart(s);
    TrimStartShape(s);
    TrimEndShape(t);
    var lead := |s| - |t|;
    var r := Strip(s);
    assert s[lead..lead + |r|] == r by {
      assert r == t[..|r|];
      assert t == s[lead..];
    }
    forall k | lead + |r| <= k < |s| ensures IsSpace(s[k]) {
      assert s[k] == t[k - lead];
    }
    if r != [] {
      assert r[0] == t[0];
    }
    assert StrippedAt(s, r, lead);
  }

  /** `r` sits in `s` at `lead` with only whitespace around it and none at its own ends. */
  predicate StrippedAt(s: string, r: string, lead: nat)
  {
    && lead + |r| <= |s|
    && s[lead..lead + |r|] == r
    && (forall k :: 0 <= k < lead ==> IsSpace(s[k]))
    && (forall k :: lead + |r| <= k < |s| ==> IsSpace(s[k]))
    && (r != [] ==> !IsSpace(r[0]) && !IsSpace(r[|r| - 1]))
  }

  /** The characters of `s` up to its first whitespace. */
  function TakeWord(s: string): (w: string)
    ensures |w| <= |s|
  {
    if s == [] || IsSpace(s[0]) then [] else [s[0]] + TakeWord(s[1..])
  }

  /** The word holds no whitespace and stops at whitespace or at the end of `s`. */
  lemma {:induction false} TakeWordShape(s: string)
    ensures TakeWord(s) == s[..|TakeWord(s)|]
    ensures forall k :: 0 <= k < |TakeWord(s)| ==> !IsSpace(TakeWord(s)[k])
    ensures |TakeWord(s)| < |s| ==> IsSpace(s[|TakeWord(s)|])
  {
    if s != [] && !IsSpace(s[0]) {
      TakeWordShape(s[1..]);
      var w := TakeWord(s);
      forall k | 0 < k < |w| ensures !IsSpace(w[k]) {
        assert w[k] == TakeWord(s[1..])[k - 1];
      }
    }
  }

  /**
   * `s.split()[0]`: the first maximal run of non-whitespace characters, or
   * `None` where Python raises IndexError because `s` is blank.
   */
  function FirstToken(s: string): Option<string>
  {
    var t := TrimStart(s);
    if t == [] then None else Some(TakeWord(t))
  }

  /**
   * `w` is a token of `s` that starts at `lead` after only whitespace: a
   * non-empty run of non-whitespace ending at whitespace or at the end of `s`.
   */
  predicate FirstTokenAt(s: string, w: string, lead: nat)
  {
    && w != [] && lead + |w| <= |s|
    && (forall k :: 0 <= k < lead ==> IsSpace(s[k]))
    && s[lead..lead + |w|] == w
    && (forall k :: 0 <= k < |w| ==> !IsSpace(w[k]))
    && (lead + |w| < |s| ==> IsSpace(s[lead + |w|]))
  }

  /** `split()[0]` finds a token exactly when `s` is not blank, and it has the shape above. */
  lemma FirstTokenShape(s: string)
    ensures FirstToken(s).None? <==> forall k :: 0 <= k < |s| ==> IsSpace(s[k])
    ensures FirstToken(s).Some? ==> exists lead :: FirstTokenAt(s, FirstToken(s).value, lead)
  {
    var t := TrimStart(s);
    TrimStartShape(s);
    if t != [] {
      TakeWordShape(t);
      var lead := |s| - |t|;
      var w := TakeWord(t);
      assert s[lead..lead + |w|] == w;
      assert FirstTokenAt(s, w, lead);
    } else {
      assert forall k :: 0 <= k < |s| ==> IsSpace(s[k]);
    }
  }

  predicate IsDigit(c: char)
  {
    '0' <= c <= '9'
  }

  /**
   * What `int()` accepts after an optional sign: ASCII digits, with single
   * underscores allowed between two digits.
   */
  predicate DigitGroups(d: string)
  {
    d != [] && forall i :: 0 <= i < |d| ==> GroupChar(d, i)
  }

  /** The character at `i` is a digit, or an underscore with a digit on each side. */
  predicate GroupChar(d: string, i: nat)
    requires i < |d|
  {
    IsDigit(d[i]) || (d[i] == '_' && 0 < i && i + 1 < |d| && IsDigit(d[i - 1]) && IsDigit(d[i + 1]))
  }

  /** The value of a digit string, underscores ignored. */
  function DigitsValue(d: string): nat
  {
    if d == [] then 0
    else if IsDigit(d[|d| - 1]) then DigitsValue(d[..|d| - 1]) * 10 + (d[|d| - 1] as int - '0' as int)
    else DigitsValue(d[..|d| - 1])
  }

  /** `int(t)` for a token `t` (no surrounding whitespace); `None` where Python raises ValueError. */
  function ParseInt(t: string): Option<int>
  {
    if t != [] && (t[0] == '+' || t[0] == '-') then
      if DigitGroups(t[1..]) then
        var magnitude: int := DigitsValue(t[1..]);
        Some(if t[0] == '-' then -magnitude else magnitude)
      else None
    else if DigitGroups(t) then Some(DigitsValue(t))
    else None
  }

  function DigitChar(n: nat): char
    requires n < 10
  {
    ('0' as int + n) as char
  }

  /** Decimal digits of `n`, most significant first (`str(n)` for `n >= 0`). */
  function NatToString(n: nat): string
  {
    if n < 10 then [DigitChar(n)] else NatToString(n / 10) + [DigitChar(n % 10)]
  }

  /** `str(n)`. */
  function IntToString(n: int): string
  {
    if n < 0 then "-" + NatToString(-n) else NatToString(n)
  }

  lemma {:induction false} NatToStringDigits(n: nat)
    ensures NatToString(n) != []
    ensures forall i :: 0 <= i < |NatToString(n)| ==> IsDigit(NatToString(n)[i])
    ensures DigitsValue(NatToString(n)) == n
  {
    if n >= 10 {
      NatToStringDigits(n / 10);
      var s := NatToString(n);
      assert s[..|s| - 1] == NatToString(n / 10);
    }
  }

  /** A non-empty run of digits is a valid `int()` literal. */
  lemma DigitsAreGroups(d: string)
    requires d != [] && forall i :: 0 <= i < |d| ==> IsDigit(d[i])
    ensures DigitGroups(d)
  {
    forall i | 0 <= i < |d| ensures GroupChar(d, i) {
    }
  }

  /** `int(str(n)) == n`: the parser reads back every integer Python prints. */
  lemma ParseIntRoundTrip(n: int)
    ensures ParseInt(IntToString(n)) == Some(n)
  {
    if n < 0 {
      var d := NatToString(-n);
      NatToStringDigits(-n);
      DigitsAreGroups(d);
      assert IntToString(n)[1..] == d;
    } else {
      var d := NatToString(n);
      NatToStringDigits(n);
      DigitsAreGroups(d);
      assert IsDigit(d[0]);
    }
  }

  /** `p in s` for strings: `p` occurs in `s` as a contiguous substring. */
  function Contains(s: string, p: string): bool
  {
    |p| <= |s| && (s[..|p|] == p || Contains(s[1..], p))
  }

  predicate OccursAt(s: string, p: string, i: nat)
  {
    i + |p| <= |s| && s[i..i + |p|] == p
  }

  /** The recursive test agrees with "some window of `s` equals `p`", in both directions. */
  lemma {:induction false} ContainsIff(s: string, p: string)
    ensures Contains(s, p) <==> exists i: nat :: OccursAt(s, p, i)
  {
    if |p| <= |s| && s[..|p|] != p {
      ContainsIff(s[1..], p);
      if Contains(s[1..], p) {
        var i: nat :| OccursAt(s[1..], p, i);
        assert s[i + 1..i + 1 + |p|] == p;
        assert OccursAt(s, p, i + 1);
      }
      if exists i: nat :: OccursAt(s, p, i) {
        var i: nat :| OccursAt(s, p, i);
        assert i != 0;
        assert s[1..][i - 1..i - 1 + |p|] == p;
        assert OccursAt(s[1..], p, i - 1);
      }
    } else if |p| <= |s| {
      assert OccursAt(s, p, 0);
    } else {
      assert forall i: nat :: !OccursAt(s, p, i);
    }
  }

  /** `s.endswith(suffix)`. */
  predicate EndsWith(s: string, suffix: string)
  {
    |suffix| <= |s| && s[|s| - |suffix|..] == suffix
  }

  /** Index of the last occurrence of `c` in `s`, if any. */
  function LastIndexOf(s: string, c: char): (r: Option<nat>)
    ensures r.Some? ==> (r.value < |s| && s[r.value] == c
                         && forall k :: r.value < k < |s| ==> s[k] != c)
    ensures r.None? ==> forall k :: 0 <= k < |s| ==> s[k] != c
  {
    if s == [] then None
    else if s[|s| - 1] == c then Some(|s| - 1)
    else LastIndexOf(s[..|s| - 1], c)
  }

  /** `s.rsplit(sep, 1)[0]`: everything before the last `sep`, or all of `s` without one. */
  function RSplitHead(s: string, sep: char): string
  {
    match LastIndexOf(s, sep)
    case None => s
    case Some(i) => s[..i]
  }
}
