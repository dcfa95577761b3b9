/**
 * String helpers shared by the store, the mca-status parser and the peer labels:
 * prefix tests, Python's str() of an integer, Python's ordering of strings,
 * str.join and str.strip.
 */
module Text {
  import opened Wrappers

  /** Python's `s.startswith(prefix)`. */
  predicate StartsWith(s: string, prefix: string)
  {
    prefix <= s
  }

  // ---------------------------------------------------------------------
  // Decimal text of integers: Python's str(int)
  // ---------------------------------------------------------------------

  predicate IsDigit(c: char)
  {
    '0' <= c <= '9'
  }

  function DigitChar(d: nat): (c: char)
    requires d < 10
    ensures IsDigit(c) && c as int - '0' as int == d
  {
    ('0' as int + d) as char
  }

  /** The decimal digits of `n`, most significant first, without leading zeros. */
  function Digits(n: nat): (s: string)
    ensures |s| >= 1 && (forall i :: 0 <= i < |s| ==> IsDigit(s[i]))
    ensures |s| > 1 ==> s[0] != '0'
    ensures s[0] == '0' <==> n == 0
  {
    if n < 10 then [DigitChar(n)] else Digits(n / 10) + [DigitChar(n % 10)]
  }

  /**
   * Python's str(n) for an int: a minus sign exactly when `n` is negative,
   * followed by the digits, with no leading zero except in "0" itself (so
   * never "07" or "-0"). The text reads back as `n`.
   */
  function IntToString(n: int): (r: string)
    ensures ReadDecimal(r) == Some(n)
    ensures r != "" && (r[0] == '-' <==> n < 0)
    ensures var d := if n < 0 then r[1..] else r;
            && d != []
            && (forall i :: 0 <= i < |d| ==> IsDigit(d[i]))
            && ((|d| > 1 || n < 0) ==> d[0] != '0')
  {
    if n < 0 then
      DigitsRoundTrip(-n);
      var r := "-" + Digits(-n);
      assert r[1..] == Digits(-n);
      r
    else
      DigitsRoundTrip(n);
      Digits(n)
  }

  /** The number a string of digits denotes (reference reading of decimal text). */
  function DigitsValue(s: string): nat
    requires forall i :: 0 <= i < |s| ==> IsDigit(s[i])
  {
    if s == [] then 0
    else
      assert IsDigit(s[|s| - 1]);
      DigitsValue(s[..|s| - 1]) * 10 + (s[|s| - 1] as int - '0' as int)
  }

  /** Reads back an optional minus sign and a non-empty run of digits. */
  function ReadDecimal(s: string): Option<int>
  {
    if |s| > 1 && s[0] == '-' && (forall i :: 1 <= i < |s| ==> IsDigit(s[i])) then
      Some(-(DigitsValue(s[1..]) as int))
    else if |s| > 0 && (forall i :: 0 <= i < |s| ==> IsDigit(s[i])) then
      Some(DigitsValue(s))
    else
      None
  }

  lemma {:induction false} DigitsRoundTrip(n: nat)
    ensures DigitsValue(Digits(n)) == n
  {
    if n >= 10 {
      DigitsRoundTrip(n / 10);
      var s := Digits(n / 10) + [DigitChar(n % 10)];
      assert s[..|s| - 1] == Digits(n / 10);
    }
  }

  /** Different integers have different decimal text. */
  lemma IntToStringInjective(a: int, b: int)
    requires IntToString(a) == IntToString(b)
    ensures a == b
  {
  }

  // ---------------------------------------------------------------------
  // Python's ordering of str values (by code point, a prefix first)
  // ---------------------------------------------------------------------

  /** Python's `a < b` on str. */
  predicate Below(a: string, b: string)
    decreases |a|
  {
    |b| > 0 && (|a| == 0 || a[0] < b[0] || (a[0] == b[0] && Below(a[1..], b[1..])))
  }

  lemma {:induction false} BelowIrreflexive(a: string)
    ensures !Below(a, a)
    decreases |a|
  {
    if |a| > 0 {
      BelowIrreflexive(a[1..]);
    }
  }

  lemma {:induction false} BelowTransitive(a: string, b: string, c: string)
    requires Below(a, b) && Below(b, c)
    ensures Below(a, c)
    decreases |a|
  {
    if |a| > 0 && a[0] == b[0] && b[0] == c[0] {
      BelowTransitive(a[1..], b[1..], c[1..]);
    }
  }

  lemma {:induction false} BelowTotal(a: string, b: string)
    requires a != b
    ensures Below(a, b) || Below(b, a)
    decreases |a|
  {
    if |a| > 0 && |b| > 0 && a[0] == b[0] {
      assert a == [a[0]] + a[1..] && b == [b[0]] + b[1..];
      BelowTotal(a[1..], b[1..]);
    }
  }

  predicate StrictlySorted(s: seq<string>)
  {
    forall i, j :: 0 <= i < j < |s| ==> Below(s[i], s[j])
  }

  lemma {:induction false} LeastExists(s: set<string>)
    requires s != {}
    ensures exists k :: k in s && forall j :: j in s && j != k ==> Below(k, j)
    decreases s
  {
    var x :| x in s;
    if s != {x} {
      LeastExists(s - {x});
      var m :| m in s - {x} && forall j :: j in s - {x} && j != m ==> Below(m, j);
      BelowTotal(x, m);
      if Below(x, m) {
        forall j | j in s && j != x
          ensures Below(x, j)
        {
          if j != m {
            BelowTransitive(x, m, j);
          }
        }
      } else {
        assert forall j :: j in s && j != m ==> Below(m, j);
      }
    }
  }

  /** The least string of a non-empty set. */
  ghost function Least(s: set<string>): (k: string)
    requires s != {}
    ensures k in s && forall j :: j in s && j != k ==> Below(k, j)
  {
    LeastExists(s);
    var k :| k in s && forall j :: j in s && j != k ==> Below(k, j); k
  }

  /** Python's `sorted(keys)` for a set of str keys. */
  ghost function Sorted(s: set<string>): (r: seq<string>)
    ensures |r| == |s| && (forall i :: 0 <= i < |r| ==> r[i] in s)
    ensures forall k :: k in s ==> k in r
    ensures StrictlySorted(r)
    decreases s
  {
    if s == {} then []
    else
      var k := Least(s);
      var rest := Sorted(s - {k});
      assert forall i :: 0 <= i < |rest| ==> Below(k, rest[i]);
      [k] + rest
  }

  /** The sorted order of a set starts with the key below all the others. */
  lemma SortedLeastFirst(s: set<string>, k: string)
    requires k in s && forall j :: j in s && j != k ==> Below(k, j)
    ensures Sorted(s) == [k] + Sorted(s - {k})
  {
    var least := Least(s);
    if least != k {
      BelowTransitive(k, least, k);
      BelowIrreflexive(k);
    }
  }

  // ---------------------------------------------------------------------
  // str.join
  // ---------------------------------------------------------------------

  /** Total length of the parts. */
  function TotalLength(parts: seq<string>): nat
  {
    if parts == [] then 0 else |parts[0]| + TotalLength(parts[1..])
  }

  /**
   * Python's `sep.join(parts)`: the parts with one `sep` between each two
   * neighbours, so no `sep` before the first part or after the last one.
   */
  function Join(parts: seq<string>, sep: string): (r: string)
    ensures parts == [] ==> r == ""
    ensures parts != [] ==> |r| == TotalLength(parts) + (|parts| - 1) * |sep|
    ensures parts != [] ==> r[..|parts[0]|] == parts[0]
  {
    if parts == [] then ""
    else if |parts| == 1 then parts[0]
    else
      var tail := Join(parts[1..], sep);
      parts[0] + sep + tail
  }

  /** Joining two non-empty lists of parts is joining each and putting one `sep` between them. */
  lemma {:induction false} JoinAppend(a: seq<string>, b: seq<string>, sep: string)
    requires a != [] && b != []
    ensures Join(a + b, sep) == Join(a, sep) + sep + Join(b, sep)
    decreases |a|
  {
    if |a| == 1 {
      assert (a + b)[1..] == b;
    } else {
      assert (a + b)[1..] == a[1..] + b;
      JoinAppend(a[1..], b, sep);
    }
  }

  // ---------------------------------------------------------------------
  // str.strip
  // ---------------------------------------------------------------------

  /** The characters Python's str.isspace() accepts, which str.strip() removes. */
  predicate IsSpace(c: char)
  {
    c == ' ' || '\t' <= c <= '\r' || '\U{1c}' <= c <= '\U{1f}' || c == '\U{85}' || c == '\U{a0}'
    || c == '\U{1680}' || '\U{2000}' <= c <= '\U{200a}' || c == '\U{2028}' || c == '\U{2029}'
    || c == '\U{202f}' || c == '\U{205f}' || c == '\U{3000}'
  }

  /** Number of whitespace characters at the start of `s`. */
  function LeadingSpace(s: string): (n: nat)
    ensures n <= |s|
    ensures forall i :: 0 <= i < n ==> IsSpace(s[i])
    ensures n < |s| ==> !IsSpace(s[n])
  {
    if s == [] || !IsSpace(s[0]) then 0 else 1 + LeadingSpace(s[1..])
  }

  /** Number of whitespace characters at the end of `s`. */
  function TrailingSpace(s: string): (n: nat)
    ensures n <= |s|
    ensures forall i :: |s| - n <= i < |s| ==> IsSpace(s[i])
    ensures n < |s| ==> !IsSpace(s[|s| - 1 - n])
  {
    if s == [] || !IsSpace(s[|s| - 1]) then 0 else 1 + TrailingSpace(s[..|s| - 1])
  }

  /** Python's `s.strip()`: the infix of `s` left after cutting whitespace at both ends. */
  function Strip(s: string): (r: string)
    ensures r == [] || (!IsSpace(r[0]) && !IsSpace(r[|r| - 1]))
    ensures exists i, j :: 0 <= i <= j <= |s| && r == s[i..j]
                           && (forall k :: 0 <= k < i ==> IsSpace(s[k]))
                           && (forall k :: j <= k < |s| ==> IsSpace(s[k]))
  {
    var i := LeadingSpace(s);
    if i == |s| then
      assert s[i..i] == [];
      []
    else
      var j := |s| - TrailingSpace(s);
      assert i < j;
      s[i..j]
  }

  /** Text that neither starts nor ends with whitespace is left alone by Strip. */
  lemma StripUnchanged(s: string)
    requires s == [] || (!IsSpace(s[0]) && !IsSpace(s[|s| - 1]))
    ensures Strip(s) == s
  {
    if s != [] {
      assert LeadingSpace(s) == 0;
      assert TrailingSpace(s) == 0;
    }
  }
}
