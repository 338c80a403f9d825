/**
 * Character classes and the handful of `str` operations the record engine uses:
 * `strip()`, `re.sub(r"\s+", " ", ...)`, `zfill`, `startswith`, `in`, and the
 * code-point order Python uses to compare strings.
 */
module Text {

  /** Python's `str.isspace()`, which is also what `\s` matches in a `str` pattern. */
  predicate IsSpace(c: char)
  {
    || ('\U{9}' <= c <= '\U{D}')
    || ('\U{1C}' <= c <= '\U{20}')
    || c == '\U{85}' || c == '\U{A0}' || c == '\U{1680}'
    || ('\U{2000}' <= c <= '\U{200A}')
    || c == '\U{2028}' || c == '\U{2029}' || c == '\U{202F}' || c == '\U{205F}' || c == '\U{3000}'
  }

  /** `\d`, restricted to ASCII digits. */
  predicate IsDigit(c: char)
  {
    '0' <= c <= '9'
  }

  predicate AllDigits(s: string)
  {
    forall i :: 0 <= i < |s| ==> IsDigit(s[i])
  }

  predicate AllSpaces(s: string)
  {
    forall i :: 0 <= i < |s| ==> IsSpace(s[i])
  }

  predicate NoNewline(s: string)
  {
    forall i :: 0 <= i < |s| ==> s[i] != '\n'
  }

  /** No whitespace at either end: what `strip()` leaves. */
  predicate Trimmed(s: string)
  {
    s == [] || (!IsSpace(s[0]) && !IsSpace(s[|s| - 1]))
  }

  /** Every whitespace character is a plain space and none follows another: what `re.sub(r"\s+", " ", s)` leaves. */
  predicate Collapsed(s: string)
  {
    && (forall i :: 0 <= i < |s| && IsSpace(s[i]) ==> s[i] == ' ')
    && (forall i, j :: 0 <= i < |s| && 0 <= j < |s| && j == i + 1 ==> !(IsSpace(s[i]) && IsSpace(s[j])))
  }

  lemma NoNewlineConcat(a: string, b: string)
    requires NoNewline(a) && NoNewline(b)
    ensures NoNewline(a + b)
  {
    forall i | 0 <= i < |a + b| ensures (a + b)[i] != '\n' {
      if i < |a| { assert (a + b)[i] == a[i]; } else { assert (a + b)[i] == b[i - |a|]; }
    }
  }

  // ---------------------------------------------------------------- strip

  /** The first index from `i` on that does not hold whitespace, or `|s|`. */
  function SkipSpaces(s: string, i: nat): (k: nat)
    requires i <= |s|
    ensures i <= k <= |s| && (k < |s| ==> !IsSpace(s[k]))
    decreases |s| - i
  {
    if i < |s| && IsSpace(s[i]) then SkipSpaces(s, i + 1) else i
  }

  lemma {:induction false} SkipSpacesSpaces(s: string, i: nat)
    requires i <= |s|
    ensures forall j :: i <= j < SkipSpaces(s, i) ==> IsSpace(s[j])
    decreases |s| - i
  {
    if i < |s| && IsSpace(s[i]) { SkipSpacesSpaces(s, i + 1); }
  }

  /** The end of `s[..j]` once its trailing whitespace is dropped. */
  function SkipSpacesBack(s: string, j: nat): (e: nat)
    requires j <= |s|
    ensures e <= j && (e > 0 ==> !IsSpace(s[e - 1]))
  {
    if j > 0 && IsSpace(s[j - 1]) then SkipSpacesBack(s, j - 1) else j
  }

  lemma {:induction false} SkipSpacesBackSpaces(s: string, j: nat)
    requires j <= |s|
    ensures forall i :: SkipSpacesBack(s, j) <= i < j ==> IsSpace(s[i])
  {
    if j > 0 && IsSpace(s[j - 1]) { SkipSpacesBackSpaces(s, j - 1); }
  }

  /** `s.lstrip()` */
  function LStrip(s: string): (r: string)
    ensures |r| <= |s| && r == s[|s| - |r|..]
    ensures r != [] ==> !IsSpace(r[0])
  {
    s[SkipSpaces(s, 0)..]
  }

  /** What `lstrip()` removes is whitespace. */
  lemma LStripSpaces(s: string)
    ensures forall i :: 0 <= i < |s| - |LStrip(s)| ==> IsSpace(s[i])
  {
    SkipSpacesSpaces(s, 0);
  }

  lemma {:induction false} SkipSpacesOver(a: string, b: string, i: nat)
    requires i <= |a| && AllSpaces(a) && (b == [] || !IsSpace(b[0]))
    ensures SkipSpaces(a + b, i) == |a|
    decreases |a| - i
  {
    if i < |a| {
      assert (a + b)[i] == a[i];
      SkipSpacesOver(a, b, i + 1);
    } else if b != [] {
      assert (a + b)[i] == b[0];
    }
  }

  /** Whitespace in front of a word is what `lstrip()` removes. */
  lemma LStripAfter(a: string, b: string)
    requires AllSpaces(a) && (b == [] || !IsSpace(b[0]))
    ensures LStrip(a + b) == b
  {
    SkipSpacesOver(a, b, 0);
    assert (a + b)[|a|..] == b;
  }

  /** `s.rstrip()` */
  function RStrip(s: string): (r: string)
    ensures |r| <= |s| && r == s[..|r|]
    ensures r != [] ==> !IsSpace(r[|r| - 1])
  {
    s[..SkipSpacesBack(s, |s|)]
  }

  /** What `rstrip()` removes is whitespace. */
  lemma RStripSpaces(s: string)
    ensures forall i :: |RStrip(s)| <= i < |s| ==> IsSpace(s[i])
  {
    SkipSpacesBackSpaces(s, |s|);
  }

  /** How many leading whitespace characters `strip()` removes. */
  function StripOffset(s: string): (k: nat)
    ensures k <= |s|
  {
    |s| - |LStrip(s)|
  }

  /** `s.strip()`: the longest infix of `s` that neither starts nor ends with whitespace. */
  function Strip(s: string): (r: string)
    ensures Trimmed(r)
    ensures StripOffset(s) + |r| <= |s| && r == s[StripOffset(s)..StripOffset(s) + |r|]
  {
    var k, e := StripOffset(s), |RStrip(s)|;
    StripEnds(s);
    if k < e then s[k..e] else []
  }

  /** The first and last characters `strip()` keeps, and the whitespace around them. */
  lemma StripEnds(s: string)
    ensures StripOffset(s) < |RStrip(s)| ==> !IsSpace(s[StripOffset(s)]) && !IsSpace(s[|RStrip(s)| - 1])
    ensures StripOffset(s) >= |RStrip(s)| ==> forall i :: StripOffset(s) <= i < |s| ==> IsSpace(s[i])
  {
    var k, e := StripOffset(s), |RStrip(s)|;
    RStripSpaces(s);
    if k < e {
      assert LStrip(s)[0] == s[k];
      assert RStrip(s)[e - 1] == s[e - 1];
    }
  }

  /** What `strip()` removes is whitespace. */
  lemma StripSpaces(s: string)
    ensures forall i :: 0 <= i < StripOffset(s) ==> IsSpace(s[i])
    ensures forall i :: StripOffset(s) + |Strip(s)| <= i < |s| ==> IsSpace(s[i])
  {
    LStripSpaces(s);
    RStripSpaces(s);
    StripEnds(s);
  }

  lemma StripOfTrimmed(s: string)
    requires Trimmed(s)
    ensures Strip(s) == s
  {
  }

  /** `strip()` empties exactly the strings made only of whitespace. */
  lemma StripEmptyIffAllSpaces(s: string)
    ensures Strip(s) == [] <==> AllSpaces(s)
  {
    StripSpaces(s);
    if Strip(s) == [] {
      assert LStrip(s) == [];
    } else {
      assert Strip(s)[0] == s[StripOffset(s) + 0];
    }
  }

  /** Whitespace in front of a trimmed string is all `strip()` removes. */
  lemma StripAfter(a: string, b: string)
    requires AllSpaces(a) && Trimmed(b)
    ensures Strip(a + b) == b
  {
    if b == [] {
      assert a + b == a;
      StripEmptyIffAllSpaces(a);
    } else {
      LStripAfter(a, b);
      assert (a + b)[|a + b| - 1] == b[|b| - 1];
      assert (a + b)[|a|..|a + b|] == b;
    }
  }

  // ------------------------------------------------------------- collapse

  /** `re.sub(r"\s+", " ", s)`: every maximal run of whitespace becomes one space. */
  function Collapse(s: string): (r: string)
    ensures Collapsed(r)
    ensures |r| <= |s| && (r == []) == (s == [])
    ensures s != [] ==> r[0] == (if IsSpace(s[0]) then ' ' else s[0])
    decreases |s|
  {
    if s == [] then []
    else if IsSpace(s[0]) then " " + Collapse(LStrip(s))
    else [s[0]] + Collapse(s[1..])
  }

  /** Collapsing brings in no character but the space. */
  lemma {:induction false} CollapseChars(s: string)
    ensures forall i :: 0 <= i < |Collapse(s)| ==> Collapse(s)[i] == ' ' || Collapse(s)[i] in s
    decreases |s|
  {
    if s != [] {
      var r := Collapse(s);
      if IsSpace(s[0]) {
        var t := LStrip(s);
        CollapseChars(t);
        forall i | 0 <= i < |r| ensures r[i] == ' ' || r[i] in s {
          if i > 0 && r[i] != ' ' {
            assert r[i] == Collapse(t)[i - 1];
            var j :| 0 <= j < |t| && t[j] == r[i];
            assert t[j] == s[|s| - |t| + j];
          }
        }
      } else {
        CollapseChars(s[1..]);
        forall i | 0 <= i < |r| ensures r[i] == ' ' || r[i] in s {
          if i > 0 && r[i] != ' ' {
            assert r[i] == Collapse(s[1..])[i - 1];
            var j :| 0 <= j < |s[1..]| && s[1..][j] == r[i];
            assert s[1 + j] == r[i];
          }
        }
      }
    }
  }

  /** Stripping, then collapsing, brings in no character but the space. */
  lemma StripCollapseChars(s: string)
    ensures forall i :: 0 <= i < |Collapse(Strip(s))| ==> Collapse(Strip(s))[i] == ' ' || Collapse(Strip(s))[i] in s
  {
    var t := Strip(s);
    CollapseChars(t);
    forall i | 0 <= i < |Collapse(t)| && Collapse(t)[i] != ' ' ensures Collapse(t)[i] in s {
      var j :| 0 <= j < |t| && t[j] == Collapse(t)[i];
      assert t[j] == s[StripOffset(s) + j];
    }
  }

  /** Collapsing ends in whitespace exactly when the string did. */
  lemma {:induction false} CollapseLast(s: string)
    requires s != []
    ensures Collapse(s) != [] && (IsSpace(Collapse(s)[|Collapse(s)| - 1]) <==> IsSpace(s[|s| - 1]))
    decreases |s|
  {
    if IsSpace(s[0]) {
      var t := LStrip(s);
      LStripSpaces(s);
      if t != [] {
        CollapseLast(t);
        assert t[|t| - 1] == s[|s| - 1];
      }
    } else if |s| > 1 {
      CollapseLast(s[1..]);
    }
  }

  /** Collapsing a trimmed string leaves it trimmed. */
  lemma CollapseTrimmed(s: string)
    requires Trimmed(s)
    ensures Trimmed(Collapse(s))
  {
    if s != [] {
      CollapseLast(s);
    }
  }

  lemma {:induction false} CollapseOfCollapsed(s: string)
    requires Collapsed(s)
    ensures Collapse(s) == s
    decreases |s|
  {
    if s != [] {
      CollapsedPart(s, s[1..], 1);
      CollapseOfCollapsed(s[1..]);
      assert IsSpace(s[0]) ==> s[0] == ' ' && (|s| > 1 ==> !IsSpace(s[1])) by {
        if IsSpace(s[0]) && |s| > 1 { assert !(IsSpace(s[0]) && IsSpace(s[1])); }
      }
      CollapseCons(s);
    }
  }

  /** A collapsed tail with a first character that starts no run of whitespace collapses to itself. */
  lemma CollapseCons(s: string)
    requires s != [] && Collapse(s[1..]) == s[1..]
    requires IsSpace(s[0]) ==> s[0] == ' ' && (|s| > 1 ==> !IsSpace(s[1]))
    ensures Collapse(s) == s
  {
    if IsSpace(s[0]) {
      LStripOneSpace(s);
      assert s == " " + s[1..];
    } else {
      assert s == [s[0]] + s[1..];
    }
  }

  lemma LStripOneSpace(s: string)
    requires s != [] && IsSpace(s[0]) && (|s| > 1 ==> !IsSpace(s[1]))
    ensures LStrip(s) == s[1..]
  {
    assert SkipSpaces(s, 1) == 1;
  }

  /** A piece of a collapsed string, given by where it sits, is collapsed. */
  lemma CollapsedPart(s: string, t: string, k: nat)
    requires Collapsed(s) && k + |t| <= |s| && forall i :: 0 <= i < |t| ==> t[i] == s[k + i]
    ensures Collapsed(t)
  {
    forall i | 0 <= i < |t| && IsSpace(t[i])
      ensures t[i] == ' ' && (i + 1 < |t| ==> !IsSpace(t[i + 1]))
    {
      assert t[i] == s[k + i];
      if i + 1 < |t| { assert t[i + 1] == s[k + i + 1]; }
    }
  }

  lemma CollapsedConcat(a: string, b: string)
    requires Collapsed(a) && Collapsed(b)
    requires a == [] || b == [] || !IsSpace(a[|a| - 1]) || !IsSpace(b[0])
    ensures Collapsed(a + b)
  {
    forall i | 0 <= i < |a + b| && IsSpace((a + b)[i])
      ensures (a + b)[i] == ' ' && (i + 1 < |a + b| ==> !IsSpace((a + b)[i + 1]))
    {
      if i < |a| {
        assert (a + b)[i] == a[i];
        if i + 1 < |a| { assert (a + b)[i + 1] == a[i + 1]; }
        else if i + 1 < |a + b| { assert (a + b)[i + 1] == b[0]; }
      } else {
        assert (a + b)[i] == b[i - |a|];
        if i + 1 < |a + b| { assert (a + b)[i + 1] == b[i + 1 - |a|]; }
      }
    }
  }

  // ---------------------------------------------------------- small tools

  predicate StartsWith(s: string, prefix: string)
  {
    |prefix| <= |s| && s[..|prefix|] == prefix
  }

  /** Python's `part in s` for strings. */
  predicate Contains(s: string, part: string)
  {
    StartsWith(s, part) || (s != [] && Contains(s[1..], part))
  }

  /** `part` occurs in `s` starting at position `i`. */
  predicate OccursAt(s: string, part: string, i: nat)
  {
    i + |part| <= |s| && s[i..i + |part|] == part
  }

  /** `part in s` holds exactly when `part` occurs in `s` at some position. */
  lemma {:induction false} ContainsAt(s: string, part: string)
    ensures Contains(s, part) <==> exists i: nat :: OccursAt(s, part, i)
    decreases |s|
  {
    if StartsWith(s, part) {
      assert OccursAt(s, part, 0);
    }
    if OccursAt(s, part, 0) {
      assert StartsWith(s, part);
    }
    if s != [] {
      ContainsAt(s[1..], part);
      if exists i: nat :: OccursAt(s[1..], part, i) {
        var i: nat :| OccursAt(s[1..], part, i);
        assert s[i + 1..i + 1 + |part|] == part;
        assert OccursAt(s, part, i + 1);
      }
      if exists i: nat :: OccursAt(s, part, i) {
        var i: nat :| OccursAt(s, part, i);
        if i > 0 {
          assert s[1..][i - 1..i - 1 + |part|] == part;
          assert OccursAt(s[1..], part, i - 1);
        }
      }
    }
  }

  function Zeros(n: nat): (r: string)
    ensures |r| == n && forall i :: 0 <= i < n ==> r[i] == '0'
  {
    seq(n, _ => '0')
  }

  /** `s.zfill(width)` for a string of digits. */
  function ZFill(s: string, width: nat): (r: string)
    ensures |r| == (if |s| >= width then |s| else width)
    ensures forall i :: 0 <= i < |r| ==> r[i] == if i < |r| - |s| then '0' else s[i - (|r| - |s|)]
  {
    if |s| >= width then s else Zeros(width - |s|) + s
  }

  /** ASCII `str.upper()` of one character. */
  function UpperChar(c: char): char
  {
    if 'a' <= c <= 'z' then (c as int - 32) as char else c
  }

  /** `str.lower()` on ASCII and on the Latin-1 capitals. */
  function LowerChar(c: char): char
  {
    if 'A' <= c <= 'Z' || ('\U{C0}' <= c <= '\U{DE}' && c != '\U{D7}') then (c as int + 32) as char else c
  }

  function Lower(s: string): (r: string)
    ensures |r| == |s| && forall i :: 0 <= i < |s| ==> r[i] == LowerChar(s[i])
  {
    seq(|s|, i requires 0 <= i < |s| => LowerChar(s[i]))
  }

  // --------------------------------------------------------------- digits

  function DigitValue(c: char): (v: nat)
    requires IsDigit(c)
    ensures v <= 9
  {
    c as int - '0' as int
  }

  function DigitChar(v: nat): (c: char)
    requires v <= 9
    ensures IsDigit(c) && DigitValue(c) == v
  {
    ('0' as int + v) as char
  }

  /** The number a string of exactly two digits denotes, as `int()` reads it. */
  function Value2(s: string): (v: nat)
    requires |s| == 2 && AllDigits(s)
    ensures v < 100
  {
    10 * DigitValue(s[0]) + DigitValue(s[1])
  }

  function Value4(s: string): (v: nat)
    requires |s| == 4 && AllDigits(s)
    ensures v < 10000
  {
    100 * Value2(s[..2]) + Value2(s[2..])
  }

  /** Two-digit strings that denote the same number are the same string. */
  lemma Value2Injective(a: string, b: string)
    requires |a| == 2 && AllDigits(a) && |b| == 2 && AllDigits(b) && Value2(a) == Value2(b)
    ensures a == b
  {
  }

  /** Four-digit strings that denote the same number are the same string. */
  lemma Value4Injective(a: string, b: string)
    requires |a| == 4 && AllDigits(a) && |b| == 4 && AllDigits(b) && Value4(a) == Value4(b)
    ensures a == b
  {
    assert Value2(a[..2]) == Value2(b[..2]) && Value2(a[2..]) == Value2(b[2..]);
    Value2Injective(a[..2], b[..2]);
    Value2Injective(a[2..], b[2..]);
    assert a == a[..2] + a[2..] && b == b[..2] + b[2..];
  }

  /** Two zero-padded decimal digits, as `%d` and `%m` print them. */
  function Pad2(n: nat): (r: string)
    requires n < 100
    ensures |r| == 2 && AllDigits(r) && Value2(r) == n
  {
    [DigitChar(n / 10), DigitChar(n % 10)]
  }

  /** Four zero-padded decimal digits. */
  function Pad4(n: nat): (r: string)
    requires n < 10000
    ensures |r| == 4 && AllDigits(r) && Value4(r) == n
  {
    var r := Pad2(n / 100) + Pad2(n % 100);
    assert r[..2] == Pad2(n / 100) && r[2..] == Pad2(n % 100);
    r
  }

  // -------------------------------------------------------- string order

  /** Python's `a <= b` on strings: lexicographic by code point, a prefix first. */
  predicate LexLe(a: string, b: string)
  {
    a == [] || (b != [] && (a[0] < b[0] || (a[0] == b[0] && LexLe(a[1..], b[1..]))))
  }

  lemma LexLeTotal(a: string, b: string)
    ensures LexLe(a, b) || LexLe(b, a)
  {
    if a != [] && b != [] && a[0] == b[0] { LexLeTotal(a[1..], b[1..]); }
  }

  lemma LexLeTransitive(a: string, b: string, c: string)
    requires LexLe(a, b) && LexLe(b, c)
    ensures LexLe(a, c)
  {
    if a != [] && b != [] && c != [] && a[0] == b[0] == c[0] {
      LexLeTransitive(a[1..], b[1..], c[1..]);
    }
  }

  lemma LexLeAntisymmetric(a: string, b: string)
    requires LexLe(a, b) && LexLe(b, a)
    ensures a == b
  {
    if a != [] && b != [] {
      LexLeAntisymmetric(a[1..], b[1..]);
      assert a == [a[0]] + a[1..] && b == [b[0]] + b[1..];
    }
  }
}
