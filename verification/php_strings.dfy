/** The three PHP string built-ins the catalogue's validation rests on:
    `trim` with its default character list, `empty()` applied to a string,
    and `strlen`. A PHP string is a byte string; here it is a Dafny `string`
    of Unicode scalar values whose bytes are its UTF-8 encoding, so `strlen`
    is the UTF-8 length. Every character `trim` strips is ASCII and no byte of
    a multi-byte UTF-8 sequence is ASCII, so trimming characters strips exactly
    the bytes PHP strips. The decimal rendering of a PHP int (string
    concatenation `'product_' . $n`) lives here too. */
module PhpStrings {

  /** The characters `trim` strips by default: space, tab, line feed,
      carriage return, NUL and vertical tab. */
  predicate IsTrimChar(c: char) {
    c == ' ' || c == '\t' || c == '\n' || c == '\r' || c == '\0' || c == '\U{0B}'
  }

  ghost predicate AllTrimChars(s: string) {
    forall c | c in s :: IsTrimChar(c)
  }

  /** Neither end of `s` carries a character `trim` would strip. */
  ghost predicate HasTrimmedEnds(s: string) {
    s == [] || (!IsTrimChar(s[0]) && !IsTrimChar(s[|s| - 1]))
  }

  /** `r` sits inside `s` with only strippable characters on either side. */
  ghost predicate IsTrimOf(r: string, s: string) {
    exists i | 0 <= i <= |s| - |r| ::
      s[i..i + |r|] == r && AllTrimChars(s[..i]) && AllTrimChars(s[i + |r|..])
  }

  /** PHP `ltrim`: drops the longest strippable prefix. */
  function TrimStart(s: string): (r: string)
    ensures |r| <= |s| && r == s[|s| - |r|..]
    ensures AllTrimChars(s[..|s| - |r|])
    ensures r == [] || !IsTrimChar(r[0])
  {
    if |s| > 0 && IsTrimChar(s[0]) then TrimStart(s[1..]) else s
  }

  /** PHP `rtrim`: drops the longest strippable suffix. */
  function TrimEnd(s: string): (r: string)
    ensures |r| <= |s| && r == s[..|r|]
    ensures AllTrimChars(s[|r|..])
    ensures r == [] || !IsTrimChar(r[|r| - 1])
  {
    if |s| > 0 && IsTrimChar(s[|s| - 1]) then
      var r := TrimEnd(s[..|s| - 1]);
      assert s[|r|..] == s[..|s| - 1][|r|..] + [s[|s| - 1]];
      r
    else s
  }

  /** PHP `trim($s)`. Where the result sits in `s` is stated separately,
      by `TrimSitsInInput`. */
  function Trim(s: string): (r: string)
    ensures |r| <= |s|
    ensures HasTrimmedEnds(r)
  {
    var t := TrimStart(s);
    var r := TrimEnd(t);
    TrimParts(s, t, r);
    r
  }

  /** A clean-ended prefix of a clean-started suffix of `s`, both cut off
      by strippable runs, is a trim of `s`. */
  lemma TrimParts(s: string, t: string, r: string)
    requires |t| <= |s| && t == s[|s| - |t|..] && AllTrimChars(s[..|s| - |t|])
    requires t == [] || !IsTrimChar(t[0])
    requires |r| <= |t| && r == t[..|r|] && AllTrimChars(t[|r|..])
    requires r == [] || !IsTrimChar(r[|r| - 1])
    ensures HasTrimmedEnds(r) && IsTrimOf(r, s)
  {
    var i := |s| - |t|;
    assert s[i..i + |r|] == r;
    assert s[i + |r|..] == t[|r|..];
    assert r != [] ==> r[0] == t[0];
  }

  /** PHP `empty($s)` for a string: true for "" and for "0". */
  predicate IsPhpEmpty(s: string) {
    s == "" || s == "0"
  }

  /** `TrimStart` stops at the first character it may not strip. */
  lemma TrimStartAt(s: string, i: nat)
    requires i <= |s| && AllTrimChars(s[..i])
    requires i == |s| || !IsTrimChar(s[i])
    ensures TrimStart(s) == s[i..]
  {
    var t := TrimStart(s);
    var k := |s| - |t|;
    if k < i {
      assert false;
    } else if k > i {
      assert false;
    }
  }

  /** `TrimEnd` stops at the last character it may not strip. */
  lemma TrimEndAt(t: string, j: nat)
    requires j <= |t| && AllTrimChars(t[j..])
    requires j == 0 || !IsTrimChar(t[j - 1])
    ensures TrimEnd(t) == t[..j]
  {
    var u := TrimEnd(t);
    if |u| < j {
      assert false;
    } else if |u| > j {
      assert false;
    }
  }

  /** The trim of `s` is a piece of `s` with only strippable characters
      around it. */
  lemma TrimSitsInInput(s: string)
    ensures IsTrimOf(Trim(s), s)
  {
    var t := TrimStart(s);
    TrimParts(s, t, TrimEnd(t));
  }

  /** Trimming is characterised by `IsTrimOf` and `HasTrimmedEnds`: any
      string with clean ends that sits in `s` between strippable runs is
      `Trim(s)`. */
  lemma TrimUnique(r: string, s: string, i: nat)
    requires i + |r| <= |s| && s[i..i + |r|] == r
    requires AllTrimChars(s[..i]) && AllTrimChars(s[i + |r|..])
    requires HasTrimmedEnds(r)
    ensures Trim(s) == r
  {
    if r == [] {
      assert AllTrimChars(s[..|s|]) by {
        forall j | 0 <= j < |s| ensures IsTrimChar(s[j]) {
          if j < i { assert s[..i][j] == s[j]; } else { assert s[i..][j - i] == s[j]; }
        }
      }
      TrimStartAt(s, |s|);
    } else {
      assert s[i] == r[0];
      TrimStartAt(s, i);
      var t := s[i..];
      assert t[|r|..] == s[i + |r|..];
      assert t[|r| - 1] == r[|r| - 1];
      TrimEndAt(t, |r|);
      assert t[..|r|] == r;
    }
  }

  /** Trimming an already trimmed string changes nothing. */
  lemma TrimIdempotent(s: string)
    ensures Trim(Trim(s)) == Trim(s)
  {
    var r := Trim(s);
    assert r[0..0 + |r|] == r;
    assert AllTrimChars(r[..0]) by { assert r[..0] == []; }
    assert AllTrimChars(r[0 + |r|..]) by { assert r[0 + |r|..] == []; }
    TrimUnique(r, r, 0);
  }

  /** Adding strippable characters around a string does not change its trim. */
  lemma TrimIgnoresPadding(p: string, s: string, q: string)
    requires AllTrimChars(p) && AllTrimChars(q)
    ensures Trim(p + s + q) == Trim(s)
  {
    var r := Trim(s);
    TrimSitsInInput(s);
    var i :| 0 <= i <= |s| - |r| &&
      s[i..i + |r|] == r && AllTrimChars(s[..i]) && AllTrimChars(s[i + |r|..]);
    TrimPaddedAt(p, s, q, r, i);
  }

  lemma TrimPaddedAt(p: string, s: string, q: string, r: string, i: nat)
    requires AllTrimChars(p) && AllTrimChars(q)
    requires i + |r| <= |s| && s[i..i + |r|] == r
    requires AllTrimChars(s[..i]) && AllTrimChars(s[i + |r|..])
    requires HasTrimmedEnds(r)
    ensures Trim(p + s + q) == r
  {
    SitsInPadded(p, s, q, r, i);
    TrimUnique(r, p + s + q, |p| + i);
  }

  lemma SitsInPadded(p: string, s: string, q: string, r: string, i: nat)
    requires AllTrimChars(p) && AllTrimChars(q)
    requires i + |r| <= |s| && s[i..i + |r|] == r
    requires AllTrimChars(s[..i]) && AllTrimChars(s[i + |r|..])
    ensures (p + s + q)[|p| + i..|p| + i + |r|] == r
    ensures AllTrimChars((p + s + q)[..|p| + i])
    ensures AllTrimChars((p + s + q)[|p| + i + |r|..])
  {
    var w := p + s + q;
    assert w[|p| + i..|p| + i + |r|] == s[i..i + |r|];
    assert w[..|p| + i] == p + s[..i];
    assert w[|p| + i + |r|..] == s[i + |r|..] + q;
  }

  /** Bytes of one character in UTF-8. */
  function Utf8Width(c: char): (n: nat)
    ensures 1 <= n <= 4
    ensures n == 1 <==> (c as int) < 0x80
  {
    if (c as int) < 0x80 then 1
    else if (c as int) < 0x800 then 2
    else if (c as int) < 0x1_0000 then 3
    else 4
  }

  /** PHP `strlen`: the byte length of the UTF-8 encoding. */
  function StrLen(s: string): (n: nat)
    ensures |s| <= n <= 4 * |s|
  {
    if s == [] then 0 else Utf8Width(s[0]) + StrLen(s[1..])
  }

  /** On ASCII text `strlen` counts characters. */
  lemma {:induction false} AsciiStrLen(s: string)
    requires forall i | 0 <= i < |s| :: (s[i] as int) < 0x80
    ensures StrLen(s) == |s|
  {
    if s != [] {
      assert forall i | 0 <= i < |s[1..]| :: (s[1..][i] as int) < 0x80 by {
        forall i | 0 <= i < |s[1..]| ensures (s[1..][i] as int) < 0x80 {
          assert s[1..][i] == s[i + 1];
        }
      }
      AsciiStrLen(s[1..]);
    }
  }

  function DigitChar(d: nat): (c: char)
    requires d < 10
    ensures '0' <= c <= '9'
  {
    ('0' as int + d) as char
  }

  function DigitValue(c: char): nat {
    if '0' <= c <= '9' then (c as int) - ('0' as int) else 0
  }

  /** PHP's string conversion of a non-negative int: decimal digits with no
      leading zero. */
  function Decimal(n: nat): (r: string)
    ensures |r| >= 1
    ensures forall i | 0 <= i < |r| :: '0' <= r[i] <= '9'
  {
    if n < 10 then [DigitChar(n)] else Decimal(n / 10) + [DigitChar(n % 10)]
  }

  /** Reads a string of decimal digits back into a number. */
  function ParseDecimal(s: string): nat {
    if s == [] then 0 else ParseDecimal(s[..|s| - 1]) * 10 + DigitValue(s[|s| - 1])
  }

  lemma {:induction false} ParseDecimalInverse(n: nat)
    ensures ParseDecimal(Decimal(n)) == n
  {
    if n < 10 {
      assert Decimal(n)[..0] == [];
    } else {
      var s := Decimal(n);
      assert s[..|s| - 1] == Decimal(n / 10);
      ParseDecimalInverse(n / 10);
    }
  }

  /** Distinct numbers render as distinct strings. */
  lemma DecimalInjective(m: nat, n: nat)
    requires m != n
    ensures Decimal(m) != Decimal(n)
  {
    ParseDecimalInverse(m);
    ParseDecimalInverse(n);
  }
}
