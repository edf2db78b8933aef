/** The string operations the services rely on: Python's `str(int)` and `str.strip`,
    `str.startswith`, SQL `LIKE` matching and the ordering used by `ORDER BY name`. */
module Text {

  // ---------------------------------------------------------------------------
  // Decimal rendering, as Python's str(int)
  // ---------------------------------------------------------------------------

  predicate IsDigit(c: char) { '0' <= c <= '9' }

  function Digit(d: nat): (c: char)
    requires d < 10
    ensures IsDigit(c)
  {
    (48 + d) as char
  }

  function DigitValue(c: char): (d: nat)
    requires IsDigit(c)
    ensures d < 10
  {
    c as int - 48
  }

  /** The decimal digits of `n`, most significant first, without leading zeros. */
  function NatToDecimal(n: nat): (s: string)
    ensures |s| >= 1
    ensures forall i :: 0 <= i < |s| ==> IsDigit(s[i])
    decreases n
  {
    if n < 10 then [Digit(n)] else NatToDecimal(n / 10) + [Digit(n % 10)]
  }

  /** str(i): a minus sign in front of the digits of a negative number. */
  function Decimal(i: int): string
  {
    if i < 0 then "-" + NatToDecimal(-i) else NatToDecimal(i)
  }

  /** Reads a string of digits back as a number (the inverse of NatToDecimal). */
  function ParseNat(s: string): nat
    requires forall i :: 0 <= i < |s| ==> IsDigit(s[i])
  {
    if s == [] then 0 else ParseNat(s[..|s| - 1]) * 10 + DigitValue(s[|s| - 1])
  }

  lemma {:induction false} ParseNatToDecimal(n: nat)
    ensures ParseNat(NatToDecimal(n)) == n
    decreases n
  {
    var s := NatToDecimal(n);
    if n >= 10 {
      ParseNatToDecimal(n / 10);
      assert s[..|s| - 1] == NatToDecimal(n / 10);
    }
  }

  /** Different numbers are rendered as different strings, so a name built from an id
      determines the id. */
  lemma DecimalSign(i: int)
    ensures |Decimal(i)| >= 1 && (Decimal(i)[0] == '-' <==> i < 0)
  {
  }

  lemma DecimalInjective(a: int, b: int)
    requires Decimal(a) == Decimal(b)
    ensures a == b
  {
    DecimalSign(a);
    DecimalSign(b);
    if a < 0 && b < 0 {
      assert NatToDecimal(-a) == Decimal(a)[1..] == Decimal(b)[1..] == NatToDecimal(-b);
      ParseNatToDecimal(-a);
      ParseNatToDecimal(-b);
    } else if a >= 0 && b >= 0 {
      ParseNatToDecimal(a);
      ParseNatToDecimal(b);
    }
  }

  // ---------------------------------------------------------------------------
  // Prefixes, infixes and str.startswith
  // ---------------------------------------------------------------------------

  predicate StartsWith(s: string, prefix: string)
  {
    |prefix| <= |s| && s[..|prefix|] == prefix
  }

  /** `needle` occurs somewhere in `s`. */
  ghost predicate Contains(s: string, needle: string)
  {
    exists i :: 0 <= i <= |s| && StartsWith(s[i..], needle)
  }

  // ---------------------------------------------------------------------------
  // Python's str.strip
  // ---------------------------------------------------------------------------

  /** The characters for which Python's str.isspace() is true. */
  predicate IsSpace(c: char)
  {
    var x := c as int;
    || 0x09 <= x <= 0x0D || 0x1C <= x <= 0x20 || x == 0x85 || x == 0xA0 || x == 0x1680
    || 0x2000 <= x <= 0x200A || x == 0x2028 || x == 0x2029 || x == 0x202F || x == 0x205F
    || x == 0x3000
  }

  ghost predicate AllSpace(s: string)
  {
    forall i :: 0 <= i < |s| ==> IsSpace(s[i])
  }

  function TrimStart(s: string): (t: string)
    ensures t == [] || !IsSpace(t[0])
  {
    if s != [] && IsSpace(s[0]) then TrimStart(s[1..]) else s
  }

  function TrimEnd(s: string): string
  {
    if s != [] && IsSpace(s[|s| - 1]) then TrimEnd(s[..|s| - 1]) else s
  }

  /** str.strip(): leading and trailing whitespace removed. */
  function Strip(s: string): string
  {
    TrimEnd(TrimStart(s))
  }

  lemma {:induction false} TrimStartEmpty(s: string)
    ensures TrimStart(s) == [] <==> AllSpace(s)
  {
    if s != [] && IsSpace(s[0]) {
      TrimStartEmpty(s[1..]);
      assert forall i :: 1 <= i < |s| ==> s[i] == s[1..][i - 1];
    }
  }

  lemma {:induction false} TrimEndKeepsHead(s: string)
    requires s != [] && !IsSpace(s[0])
    ensures TrimEnd(s) != []
  {
    if IsSpace(s[|s| - 1]) {
      TrimEndKeepsHead(s[..|s| - 1]);
    }
  }

  /** The stripped string is empty exactly when the string holds only whitespace. */
  lemma StripEmptyIff(s: string)
    ensures |Strip(s)| == 0 <==> AllSpace(s)
  {
    TrimStartEmpty(s);
    if TrimStart(s) != [] {
      TrimEndKeepsHead(TrimStart(s));
    }
  }

  // ---------------------------------------------------------------------------
  // SQL LIKE
  // ---------------------------------------------------------------------------

  /** `s LIKE pattern`: '%' matches any run of characters and '_' any single character. */
  function Like(s: string, pattern: string): bool
    decreases |s| + |pattern|
  {
    if pattern == [] then s == []
    else if pattern[0] == '%' then Like(s, pattern[1..]) || (s != [] && Like(s[1..], pattern))
    else s != [] && (pattern[0] == '_' || pattern[0] == s[0]) && Like(s[1..], pattern[1..])
  }

  /** A pattern without wildcard characters matches only itself. */
  predicate Literal(p: string)
  {
    forall i :: 0 <= i < |p| ==> p[i] != '%' && p[i] != '_'
  }

  lemma {:induction false} LikeAnything(s: string)
    ensures Like(s, "%")
    decreases |s|
  {
    if s != [] {
      LikeAnything(s[1..]);
    }
  }

  lemma {:induction false} LikePrefix(s: string, p: string)
    requires Literal(p)
    ensures Like(s, p + "%") <==> StartsWith(s, p)
    decreases |p|
  {
    if p == [] {
      assert p + "%" == "%";
      LikeAnything(s);
    } else {
      assert (p + "%")[1..] == p[1..] + "%";
      if s != [] {
        LikePrefix(s[1..], p[1..]);
        if StartsWith(s, p) {
          assert s[1..][..|p| - 1] == s[..|p|][1..];
        }
        if StartsWith(s[1..], p[1..]) && p[0] == s[0] {
          assert s[..|p|] == [s[0]] + s[1..][..|p| - 1];
        }
      }
    }
  }

  lemma {:induction false} LikeInfixFrom(s: string, p: string)
    requires Literal(p)
    ensures Like(s, "%" + p + "%") <==> Contains(s, p)
    decreases |s|
  {
    var q := p + "%";
    assert "%" + p + "%" == "%" + q;
    assert ("%" + q)[1..] == q;
    LikePrefix(s, p);
    assert s[0..] == s;
    if s == [] {
      if Contains(s, p) {
        var i :| 0 <= i <= |s| && StartsWith(s[i..], p);
        assert s[i..] == s;
      }
    } else {
      LikeInfixFrom(s[1..], p);
      if Contains(s[1..], p) {
        var i :| 0 <= i <= |s[1..]| && StartsWith(s[1..][i..], p);
        assert s[1..][i..] == s[i + 1..];
      }
      if Contains(s, p) {
        var i :| 0 <= i <= |s| && StartsWith(s[i..], p);
        if i > 0 {
          assert s[i..] == s[1..][i - 1..];
        }
      }
    }
  }

  /** `column LIKE '%text%'`, as the user search and the description check write it,
      holds exactly when the column contains `text`, provided `text` has no wildcard. */
  lemma LikeContains(s: string, p: string)
    requires Literal(p)
    ensures Like(s, "%" + p + "%") <==> Contains(s, p)
  {
    LikeInfixFrom(s, p);
  }

  // ---------------------------------------------------------------------------
  // Lexicographic order on code points (ORDER BY name)
  // ---------------------------------------------------------------------------

  predicate StrLe(a: string, b: string)
  {
    if a == [] then true
    else if b == [] then false
    else if a[0] != b[0] then a[0] < b[0]
    else StrLe(a[1..], b[1..])
  }

  lemma {:induction false} StrLeTotal(a: string, b: string)
    ensures StrLe(a, b) || StrLe(b, a)
  {
    if a != [] && b != [] && a[0] == b[0] {
      StrLeTotal(a[1..], b[1..]);
    }
  }

  lemma {:induction false} StrLeTransitive(a: string, b: string, c: string)
    requires StrLe(a, b) && StrLe(b, c)
    ensures StrLe(a, c)
  {
    if a != [] && b != [] && c != [] && a[0] == b[0] == c[0] {
      StrLeTransitive(a[1..], b[1..], c[1..]);
    }
  }
}
