/**
 * The permissive date token shared by the label normaliser and the
 * spreadsheet importer: `(\d{1,2})/(\d{1,2})/(\d{2,4})` at the start of a
 * string, and its rewriting to `DD/MM/YYYY` by zero-filling day and month
 * and prefixing a short year with `"20"`. No calendar check is made.
 */
module LooseDate {
  import opened Wrappers
  import opened Text

  /** How many ASCII digits `s` starts with. */
  function DigitRun(s: string): (n: nat)
    ensures n <= |s| && AllDigits(s[..n]) && (n < |s| ==> !IsDigit(s[n]))
  {
    if s != [] && IsDigit(s[0]) then
      var n := 1 + DigitRun(s[1..]);
      assert s[..n] == [s[0]] + s[1..][..n - 1];
      n
    else 0
  }

  lemma DigitRunOf(a: string, b: string)
    requires AllDigits(a) && (b == [] || !IsDigit(b[0]))
    ensures DigitRun(a + b) == |a|
  {
    if a != [] {
      assert (a + b)[1..] == a[1..] + b;
      DigitRunOf(a[1..], b);
    }
  }

  /** The three digit groups of a date token and the text after the year. */
  datatype Parts = Parts(day: string, month: string, year: string, rest: string)

  /** Group sizes the pattern allows; a year is followed by something other than a digit. */
  predicate WellFormed(p: Parts)
  {
    && 1 <= |p.day| <= 2 && AllDigits(p.day)
    && 1 <= |p.month| <= 2 && AllDigits(p.month)
    && 2 <= |p.year| <= 4 && AllDigits(p.year)
    && (p.rest == [] || !IsDigit(p.rest[0]))
  }

  function Joined(p: Parts): string
  {
    p.day + ("/" + (p.month + ("/" + (p.year + p.rest))))
  }

  /** `(\d{lo,hi})` at the start of `s`, taking the whole digit run: the digits and what follows them. */
  function Group(s: string, lo: nat, hi: nat): (r: Option<(string, string)>)
    ensures r.Some? ==> r.value.0 + r.value.1 == s && AllDigits(r.value.0) && lo <= |r.value.0| <= hi
    ensures r.Some? ==> r.value.1 == [] || !IsDigit(r.value.1[0])
  {
    var n := DigitRun(s);
    if lo <= n <= hi then
      assert s == s[..n] + s[n..];
      Some((s[..n], s[n..]))
    else None
  }

  lemma GroupOf(a: string, b: string, lo: nat, hi: nat)
    requires AllDigits(a) && lo <= |a| <= hi && (b == [] || !IsDigit(b[0]))
    ensures Group(a + b, lo, hi) == Some((a, b))
  {
    DigitRunOf(a, b);
    assert (a + b)[..|a|] == a && (a + b)[|a|..] == b;
  }

  /** A literal `/` at the start of `s`, and what follows it. */
  function Slash(s: string): (r: Option<string>)
    ensures r.Some? ==> s == "/" + r.value
  {
    if s != [] && s[0] == '/' then Some(s[1..]) else None
  }

  lemma SlashOf(t: string)
    ensures Slash("/" + t) == Some(t)
  {
    assert ("/" + t)[1..] == t;
  }

  /**
   * `re.match(r"(\d{1,2})/(\d{1,2})/(\d{2,4})", s)` where the pattern goes on
   * with something that cannot start with a digit. Each group is the whole
   * digit run at its place, because a shorter choice leaves a digit where the
   * pattern needs `/` or what follows the year.
   */
  function MatchDate(s: string): (r: Option<Parts>)
    ensures r.Some? ==> WellFormed(r.value) && Joined(r.value) == s
  {
    match Group(s, 1, 2)
    case None => None
    case Some((d, r1)) =>
      match Slash(r1)
      case None => None
      case Some(t1) =>
        match Group(t1, 1, 2)
        case None => None
        case Some((m, r2)) =>
          match Slash(r2)
          case None => None
          case Some(t2) =>
            match Group(t2, 2, 4)
            case None => None
            case Some((y, rest)) => Some(Parts(d, m, y, rest))
  }

  /** Every way of writing a well-formed token is recognised, and split back into the same groups. */
  lemma MatchJoined(p: Parts)
    requires WellFormed(p)
    ensures MatchDate(Joined(p)) == Some(p)
  {
    var t2 := p.year + p.rest;
    var t1 := p.month + ("/" + t2);
    GroupOf(p.day, "/" + t1, 1, 2);
    SlashOf(t1);
    GroupOf(p.month, "/" + t2, 1, 2);
    SlashOf(t2);
    GroupOf(p.year, p.rest, 2, 4);
  }

  /** `re.match(r"(\d{1,2})/(\d{1,2})/(\d{2,4})$", s)` on a string without newlines. */
  function BareDate(s: string): (r: Option<Parts>)
    ensures r.Some? ==> WellFormed(r.value) && r.value.rest == [] && Joined(r.value) == s
  {
    match MatchDate(s)
    case Some(p) => if p.rest == [] then Some(p) else None
    case None => None
  }

  /** `y.zfill(4) if len(y) == 4 else "20" + y.zfill(2)`. */
  function ExpandYear(y: string): (r: string)
    requires 2 <= |y| <= 4 && AllDigits(y)
    ensures AllDigits(r) && |r| == (if |y| == 3 then 5 else 4)
  {
    if |y| == 4 then ZFill(y, 4) else "20" + ZFill(y, 2)
  }

  /** The shape of a rewritten token: `DD/MM/` and a year of four digits, or of five when it had three. */
  predicate DateShape(s: string)
  {
    && 10 <= |s| <= 11
    && IsDigit(s[0]) && IsDigit(s[1]) && s[2] == '/' && IsDigit(s[3]) && IsDigit(s[4]) && s[5] == '/'
    && AllDigits(s[6..])
  }

  /** `f"{d.zfill(2)}/{mth.zfill(2)}/{y}"` with the year expanded. */
  function DateLabel(p: Parts): (r: string)
    requires WellFormed(p)
    ensures DateShape(r)
  {
    var d2, m2, y := ZFill(p.day, 2), ZFill(p.month, 2), ExpandYear(p.year);
    ZFillDigits(p.day);
    ZFillDigits(p.month);
    LabelShape(d2, m2, y);
    Joined(Parts(d2, m2, y, ""))
  }

  /** The rewritten token spelled out left to right. */
  lemma DateLabelText(p: Parts)
    requires WellFormed(p)
    ensures DateLabel(p) == ZFill(p.day, 2) + "/" + ZFill(p.month, 2) + "/" + ExpandYear(p.year)
  {
    var d2, m2, y := ZFill(p.day, 2), ZFill(p.month, 2), ExpandYear(p.year);
    assert y + "" == y;
    assert d2 + ("/" + (m2 + ("/" + y))) == d2 + "/" + m2 + "/" + y;
  }

  lemma ZFillDigits(x: string)
    requires 1 <= |x| <= 2 && AllDigits(x)
    ensures |ZFill(x, 2)| == 2 && AllDigits(ZFill(x, 2))
  {
  }

  lemma LabelShape(d2: string, m2: string, y: string)
    requires |d2| == 2 && AllDigits(d2) && |m2| == 2 && AllDigits(m2) && 4 <= |y| <= 5 && AllDigits(y)
    ensures DateShape(Joined(Parts(d2, m2, y, "")))
  {
    var r := Joined(Parts(d2, m2, y, ""));
    assert r[0] == d2[0] && r[1] == d2[1] && r[3] == m2[0] && r[4] == m2[1];
    assert r[6..] == y;
  }

  /** The groups a rewritten token splits into. */
  function ShapeParts(s: string, rest: string): (p: Parts)
    requires DateShape(s) && (rest == [] || !IsDigit(rest[0]))
    ensures WellFormed(p) == (|s| == 10)
    ensures Joined(p) == s + rest
  {
    var p := Parts(s[..2], s[3..5], s[6..], rest);
    assert s == s[..2] + ("/" + (s[3..5] + ("/" + s[6..])));
    p
  }

  /**
   * A rewritten token followed by a non-digit is read back as itself when its
   * year has four digits and rewrites to itself; a five-digit year is no
   * longer a token at all.
   */
  lemma ShapeMatch(s: string, rest: string)
    requires DateShape(s) && (rest == [] || !IsDigit(rest[0]))
    ensures |s| == 10 ==> MatchDate(s + rest) == Some(ShapeParts(s, rest))
    ensures |s| == 10 ==> DateLabel(ShapeParts(s, rest)) == s
    ensures |s| == 11 ==> MatchDate(s + rest) == None
  {
    var p := ShapeParts(s, rest);
    if |s| == 10 {
      MatchJoined(p);
      var q := ShapeParts(s, []);
      assert DateLabel(p) == Joined(q);
    } else {
      var t2 := p.year + p.rest;
      var t1 := p.month + ("/" + t2);
      GroupOf(p.day, "/" + t1, 1, 2);
      SlashOf(t1);
      GroupOf(p.month, "/" + t2, 1, 2);
      SlashOf(t2);
      DigitRunOf(p.year, p.rest);
    }
  }
}
