/**
 * Bulk shifting of record keys (`features/date_shift.py`): reading the date
 * and the suffix out of a key `DD/MM/YYYY -<suffix>`, month and year
 * arithmetic that clamps the day to the end of the month, and the re-keying
 * of a whole record set with its counters.
 */
module DateShift {
  import opened Wrappers
  import opened Text
  import opened Dict
  import opened Calendar

  // ---------------------------------------------------------------- parsing

  /** `(\d{2})/(\d{2})/(\d{4})` on the first ten characters of `t`. */
  predicate DatePattern(t: string)
  {
    && |t| >= 10
    && IsDigit(t[0]) && IsDigit(t[1]) && t[2] == '/' && IsDigit(t[3]) && IsDigit(t[4]) && t[5] == '/'
    && IsDigit(t[6]) && IsDigit(t[7]) && IsDigit(t[8]) && IsDigit(t[9])
  }

  /** The three groups read with `int()`, in the order `datetime.date(year, month, day)` takes them. */
  function DateOf(t: string): (d: Date)
    requires DatePattern(t)
    ensures 0 <= d.day < 100 && 0 <= d.month < 100 && 0 <= d.year < 10000
  {
    assert AllDigits(t[..2]) && AllDigits(t[3..5]) by {
      assert t[..2][0] == t[0] && t[..2][1] == t[1] && t[3..5][0] == t[3] && t[3..5][1] == t[4];
    }
    assert AllDigits(t[6..10]) by {
      forall i | 0 <= i < 4 ensures IsDigit(t[6..10][i]) { assert t[6..10][i] == t[6 + i]; }
    }
    Date(Value4(t[6..10]), Value2(t[3..5]), Value2(t[..2]))
  }

  predicate AllNewlines(s: string)
  {
    forall i :: 0 <= i < |s| ==> s[i] == '\n'
  }

  /** Nothing but whitespace follows the first newline. */
  predicate SpacesAfterNewline(s: string)
  {
    s == [] || (if s[0] == '\n' then AllSpaces(s[1..]) else SpacesAfterNewline(s[1..]))
  }

  /** A line without a newline satisfies the tail condition trivially. */
  lemma {:induction false} NoNewlineSpaces(s: string)
    requires NoNewline(s)
    ensures SpacesAfterNewline(s)
  {
    if s != [] {
      assert s[0] != '\n';
      NoNewlineSpaces(s[1..]);
    }
  }

  /** Up to a character that is not whitespace, no newline has been seen. */
  lemma {:induction false} NoNewlineBeforeWord(l: string, n: nat)
    requires SpacesAfterNewline(l) && 0 < n <= |l| && !IsSpace(l[n - 1])
    ensures NoNewline(l[..n])
  {
    if n > 1 { assert l[1..][n - 2] == l[n - 1]; }
    assert l[0] != '\n';
    if n > 1 {
      NoNewlineBeforeWord(l[1..], n - 1);
      assert l[..n] == [l[0]] + l[1..][..n - 1];
    }
  }

  /**
   * `\s*(.+)\s*$` on what follows the dash: some character other than a
   * newline, and no newline before the last non-whitespace character.
   */
  predicate TailMatches(rest: string)
  {
    !AllNewlines(rest) && SpacesAfterNewline(LStrip(rest))
  }

  /**
   * `parse_key_date_suffix(key)`: `re.match(r"^\s*(\d{2})/(\d{2})/(\d{4})\s*-\s*(.+)\s*$", key)`
   * and then `datetime.date(...)`; `None` where the pattern fails or the
   * date does not exist. The suffix is the last group stripped.
   */
  function ParseKey(key: string): (r: Option<(ValidDate, string)>)
    ensures r.Some? ==> Trimmed(r.value.1) && NoNewline(r.value.1)
    ensures r.Some? ==>
      var t := LStrip(key);
      && |t| >= 10 && t[..10] == DateText(r.value.0)
      && DashRest(t[10..]).Some? && r.value.1 == Strip(DashRest(t[10..]).value)
  {
    var t := LStrip(key);
    if !DatePattern(t) then None
    else
      match DashRest(t[10..])
      case None => None
      case Some(rest) =>
        if !TailMatches(rest) || !IsValid(DateOf(t)) then None
        else
          DateOfText(t);
          Parsed(DateOf(t), rest)
  }

  /** A valid date read from `DD/MM/YYYY` is printed back as the same ten characters. */
  lemma DateOfText(t: string)
    requires DatePattern(t) && IsValid(DateOf(t))
    ensures DateText(DateOf(t)) == t[..10]
  {
    var d := DateOf(t);
    var s := DateText(d);
    assert AllDigits(t[..2]) && AllDigits(t[3..5]) by {
      assert t[..2][0] == t[0] && t[..2][1] == t[1] && t[3..5][0] == t[3] && t[3..5][1] == t[4];
    }
    assert AllDigits(t[6..10]) by {
      forall i | 0 <= i < 4 ensures IsDigit(t[6..10][i]) { assert t[6..10][i] == t[6 + i]; }
    }
    Value2Injective(s[..2], t[..2]);
    Value2Injective(s[3..5], t[3..5]);
    Value4Injective(s[6..], t[6..10]);
    forall i | 0 <= i < 10 ensures s[i] == t[i] {
      if i < 2 { assert s[i] == s[..2][i]; }
      else if 3 <= i < 5 { assert s[i] == s[3..5][i - 3]; }
      else if 6 <= i { assert s[i] == s[6..][i - 6]; }
    }
  }

  /** `\s*-` at the start of `s`: what follows the dash. */
  function DashRest(s: string): (r: Option<string>)
    ensures r.Some? ==> |r.value| < |s| && r.value == s[|s| - |r.value|..]
    ensures r.Some? ==> s[|s| - |r.value| - 1] == '-' && AllSpaces(s[..|s| - |r.value| - 1])
  {
    var u := LStrip(s);
    LStripSpaces(s);
    if u == [] || u[0] != '-' then None
    else
      assert s[|s| - |u|] == u[0];
      Some(u[1..])
  }

  /** The date and the stripped suffix of a key that matched. */
  function Parsed(d: ValidDate, rest: string): (r: Option<(ValidDate, string)>)
    requires SpacesAfterNewline(LStrip(rest))
    ensures r.Some? && r.value.0 == d && Trimmed(r.value.1) && NoNewline(r.value.1)
  {
    SuffixHasNoNewline(rest);
    Some((d, Strip(rest)))
  }

  lemma SuffixHasNoNewline(rest: string)
    requires SpacesAfterNewline(LStrip(rest))
    ensures NoNewline(Strip(rest))
  {
    var l, s := LStrip(rest), Strip(rest);
    if s != [] {
      assert s == l[..|s|];
      NoNewlineBeforeWord(l, |s|);
    }
  }

  /** `format_key(dt, suffix)` */
  function FormatKey(d: ValidDate, suffix: string): (k: string)
    ensures |k| == 12 + |suffix|
  {
    DateText(d) + " -" + suffix
  }

  /** A formatted key is read back as the date and the suffix it was made from. */
  lemma ParseFormatKey(d: ValidDate, suffix: string)
    requires suffix != [] && Trimmed(suffix) && NoNewline(suffix)
    ensures ParseKey(FormatKey(d, suffix)) == Some((d, suffix))
  {
    FormattedStart(d, suffix);
    FormattedRest(d, suffix);
    FormattedTail(suffix);
    StripOfTrimmed(suffix);
  }

  lemma FormattedStart(d: ValidDate, suffix: string)
    ensures LStrip(FormatKey(d, suffix)) == FormatKey(d, suffix)
    ensures DatePattern(FormatKey(d, suffix)) && DateOf(FormatKey(d, suffix)) == d
  {
    var s, k := DateText(d), FormatKey(d, suffix);
    assert k[..10] == s;
    assert k[0] == s[0] && !IsSpace(k[0]);
    assert k[..2] == s[..2] && k[3..5] == s[3..5] && k[6..10] == s[6..];
  }

  lemma FormattedRest(d: ValidDate, suffix: string)
    requires suffix != [] && !IsSpace(suffix[0])
    ensures DashRest(FormatKey(d, suffix)[10..]) == Some(suffix)
  {
    var k := FormatKey(d, suffix);
    assert k == DateText(d) + (" " + ("-" + suffix));
    assert k[10..] == " " + ("-" + suffix);
    LStripAfter(" ", "-" + suffix);
    assert ("-" + suffix)[1..] == suffix;
  }

  lemma FormattedTail(suffix: string)
    requires suffix != [] && Trimmed(suffix) && NoNewline(suffix)
    ensures TailMatches(suffix)
  {
    assert suffix[0] != '\n';
    NoNewlineSpaces(suffix);
  }

  // ---------------------------------------------------------------- letters

  /**
   * `suffix_letter(suffix_full)`: the first character of the stripped suffix,
   * upper-cased. `None` is the `IndexError` raised when nothing is left after
   * stripping; the `or " "` fallback strips to nothing as well.
   */
  function SuffixLetter(suffix: string): (r: Option<char>)
    ensures r.None? <==> AllSpaces(suffix)
    ensures r.Some? ==> StripOffset(suffix) < |suffix| && r.value == UpperChar(suffix[StripOffset(suffix)])
  {
    var s := Strip(if suffix == [] then " " else suffix);
    assert suffix != [] ==> s == Strip(suffix);
    StripEmptyIffAllSpaces(suffix);
    BlankStripsToNothing();
    if s == [] then None else Some(UpperChar(s[0]))
  }

  lemma BlankStripsToNothing()
    ensures Strip(" ") == []
  {
    assert AllSpaces(" ");
    StripEmptyIffAllSpaces(" ");
  }

  // ----------------------------------------------------------- arithmetic

  function Min(a: int, b: int): int
  {
    if a <= b then a else b
  }

  /**
   * `add_months(dt, n)`: the month `n` months away, the day clamped to its
   * length; `None` for the `ValueError` of a year outside 1..9999.
   */
  function AddMonths(d: ValidDate, n: int): (r: Option<ValidDate>)
    ensures r.Some? <==> 1 <= d.year + (d.month - 1 + n) / 12 <= MaxYear
    ensures r.Some? ==> 12 * r.value.year + r.value.month == 12 * d.year + d.month + n
    ensures r.Some? ==> r.value.day == Min(d.day, LastDayOfMonth(r.value.year, r.value.month))
  {
    var y := d.year + (d.month - 1 + n) / 12;
    var m := (d.month - 1 + n) % 12 + 1;
    var day := Min(d.day, LastDayOfMonth(y, m));
    if 1 <= y <= MaxYear then Some(Date(y, m, day)) else None
  }

  /**
   * `add_years(dt, n)`: the same month `n` years away, the day clamped;
   * `None` for a year outside 1..9999.
   */
  function AddYears(d: ValidDate, n: int): (r: Option<ValidDate>)
    ensures r.Some? <==> 1 <= d.year + n <= MaxYear
    ensures r.Some? ==> r.value.year == d.year + n && r.value.month == d.month
    ensures r.Some? ==> r.value.day == Min(d.day, LastDayOfMonth(d.year + n, d.month))
  {
    var y := d.year + n;
    var day := Min(d.day, LastDayOfMonth(y, d.month));
    if 1 <= y <= MaxYear then Some(Date(y, d.month, day)) else None
  }

  /** Adding `n` years is adding `12 * n` months. */
  lemma AddYearsIsTwelveMonths(d: ValidDate, n: int)
    ensures AddYears(d, n) == AddMonths(d, 12 * n)
  {
    var t := d.month - 1 + 12 * n;
    assert t / 12 == n && t % 12 == d.month - 1;
  }

  /** Shifting back undoes a shift that did not have to clamp the day. */
  lemma AddMonthsBack(d: ValidDate, n: int)
    requires AddMonths(d, n).Some?
    requires d.day <= LastDayOfMonth(AddMonths(d, n).value.year, AddMonths(d, n).value.month)
    ensures AddMonths(AddMonths(d, n).value, -n) == Some(d)
  {
    var e := AddMonths(d, n).value;
    var t := e.month - 1 - n;
    assert 12 * e.year + t == 12 * d.year + d.month - 1;
    assert t / 12 == d.year - e.year && t % 12 == d.month - 1;
  }

  /** Two different dates whose days are not clamped stay different after the same month shift. */
  lemma MonthShiftKeepsApart(d1: ValidDate, d2: ValidDate, n: int)
    requires d1 != d2
    requires AddMonths(d1, n).Some? && d1.day <= LastDayOfMonth(AddMonths(d1, n).value.year, AddMonths(d1, n).value.month)
    requires AddMonths(d2, n).Some? && d2.day <= LastDayOfMonth(AddMonths(d2, n).value.year, AddMonths(d2, n).value.month)
    ensures AddMonths(d1, n) != AddMonths(d2, n)
  {
    AddMonthsBack(d1, n);
    AddMonthsBack(d2, n);
  }

  /** Days clamped to a shorter month merge: 30 and 31 January both land on 29 February 2024. */
  lemma ClampMerges()
    ensures AddMonths(Date(2024, 1, 30), 1) == Some(Date(2024, 2, 29))
    ensures AddMonths(Date(2024, 1, 31), 1) == Some(Date(2024, 2, 29))
  {
  }

  /** Zero months and zero years change nothing. */
  lemma AddNothing(d: ValidDate)
    ensures AddMonths(d, 0) == Some(d) && AddYears(d, 0) == Some(d)
  {
    assert (d.month - 1) / 12 == 0 && (d.month - 1) % 12 == d.month - 1;
  }

  /** 31 January plus one month is 28 February; 29 February 2024 plus one year is 28 February 2025. */
  lemma ClampExamples()
    ensures AddMonths(Date(2023, 1, 31), 1) == Some(Date(2023, 2, 28))
    ensures AddYears(Date(2024, 2, 29), 1) == Some(Date(2025, 2, 28))
    ensures AddMonths(Date(2024, 3, 31), -1) == Some(Date(2024, 2, 29))
    ensures AddMonths(Date(2024, 1, 15), -13) == Some(Date(2022, 12, 15))
  {
  }

  // ------------------------------------------------------------- shifting

  /** Why a shift run stops: the `IndexError` of a blank suffix, or a date leaving years 1..9999. */
  datatype ShiftError = EmptySuffix | DateOutOfRange

  /** `d + timedelta(days=n)`, `add_months` or `add_years`, chosen by the unit's name. */
  function ShiftDate(d: ValidDate, unit: string, amount: int): (r: Result<ValidDate, ShiftError>)
    ensures r.Failure? ==> r.error == DateOutOfRange
    ensures unit == "Dias" ==> (r.Success? <==> AddDays(d, amount).Some?)
    ensures unit == "Dias" && r.Success? ==> r.value == AddDays(d, amount).value
    ensures unit == "Meses" ==> (r.Success? <==> AddMonths(d, amount).Some?)
    ensures unit == "Meses" && r.Success? ==> r.value == AddMonths(d, amount).value
    ensures unit != "Dias" && unit != "Meses" ==> (r.Success? <==> AddYears(d, amount).Some?)
    ensures unit != "Dias" && unit != "Meses" && r.Success? ==> r.value == AddYears(d, amount).value
  {
    var nd := if unit == "Dias" then AddDays(d, amount)
              else if unit == "Meses" then AddMonths(d, amount)
              else AddYears(d, amount);
    match nd
    case Some(e) => Success(e)
    case None => Failure(DateOutOfRange)
  }

  /** A shift by zero, in any unit, leaves the date as it is. */
  lemma ShiftByZero(d: ValidDate, unit: string)
    ensures ShiftDate(d, unit, 0) == Success(d)
  {
    AddZeroDays(d);
    AddNothing(d);
  }

  const OnlyTheory := "S\U{F3} T"
  const OnlyPractice := "S\U{F3} P"

  /** Whether the filter mode leaves out an entry whose suffix starts with `letter`. */
  predicate FilteredOut(mode: string, letter: char)
  {
    || (StartsWith(mode, OnlyTheory) && letter != 'T')
    || (StartsWith(mode, OnlyPractice) && letter != 'P')
  }

  datatype Outcome = Unparsed | Filtered | Moved

  /** Where one entry goes: its outcome and the key it is written under. */
  datatype Routed = Routed(outcome: Outcome, key: string)

  /**
   * The decision the loop of `shift_value_map` takes for one key: copied
   * unchanged when it does not parse or the filter leaves it out, otherwise
   * moved to the key of its shifted date with the same suffix. A blank
   * suffix and a date out of range are the exceptions that end the run.
   */
  function Route(key: string, unit: string, amount: int, mode: string): (r: Result<Routed, ShiftError>)
    ensures ParseKey(key).None? ==> r == Success(Routed(Unparsed, key))
    ensures r.Failure? <==> Raises(key, unit, amount, mode)
    ensures r.Failure? ==> r.error == if SuffixLetter(ParseKey(key).value.1).None? then EmptySuffix else DateOutOfRange
    ensures (ParseKey(key).Some? && SuffixLetter(ParseKey(key).value.1).Some?
             && FilteredOut(mode, SuffixLetter(ParseKey(key).value.1).value))
            ==> r == Success(Routed(Filtered, key))
    ensures r.Success? && r.value.outcome != Moved ==> r.value.key == key
    ensures r.Success? && r.value.outcome != Unparsed ==> ParseKey(key).Some?
    ensures r.Success? && r.value.outcome == Moved ==>
      var (d, s) := ParseKey(key).value;
      && SuffixLetter(s).Some? && !FilteredOut(mode, SuffixLetter(s).value)
      && ShiftDate(d, unit, amount).Success?
      && r.value.key == FormatKey(ShiftDate(d, unit, amount).value, s)
  {
    match ParseKey(key)
    case None => Success(Routed(Unparsed, key))
    case Some((d, s)) =>
      match SuffixLetter(s)
      case None => Failure(EmptySuffix)
      case Some(letter) =>
        if FilteredOut(mode, letter) then Success(Routed(Filtered, key))
        else
          match ShiftDate(d, unit, amount)
          case Failure(e) => Failure(e)
          case Success(nd) => Success(Routed(Moved, FormatKey(nd, s)))
  }

  /**
   * The keys on which `shift_value_map` raises: a parsed key whose suffix is
   * blank (`IndexError` in `suffix_letter`), or a parsed key the filter lets
   * through whose shifted date leaves the years 1 to 9999.
   */
  predicate Raises(key: string, unit: string, amount: int, mode: string)
  {
    ParseKey(key).Some? &&
      var (d, s) := ParseKey(key).value;
      SuffixLetter(s).None? || (!FilteredOut(mode, SuffixLetter(s).value) && ShiftDate(d, unit, amount).Failure?)
  }

  /** Without a "Só T" or "Só P" filter no key is filtered out: every parsed key is moved or raises. */
  lemma NoFilterMovesAll(key: string, unit: string, amount: int, mode: string)
    requires !StartsWith(mode, OnlyTheory) && !StartsWith(mode, OnlyPractice)
    requires ParseKey(key).Some? && !Raises(key, unit, amount, mode)
    ensures Route(key, unit, amount, mode) == Success(Routed(Moved, Route(key, unit, amount, mode).value.key))
  {
  }

  /** A moved entry keeps its date's suffix: its new key reads back as the shifted date and the same suffix. */
  lemma MovedKeepsSuffix(key: string, unit: string, amount: int, mode: string)
    requires Route(key, unit, amount, mode).Success? && Route(key, unit, amount, mode).value.outcome == Moved
    ensures var (d, s) := ParseKey(key).value;
      ParseKey(Route(key, unit, amount, mode).value.key) == Some((ShiftDate(d, unit, amount).value, s))
  {
    var (d, s) := ParseKey(key).value;
    StripEmptyIffAllSpaces(s);
    StripOfTrimmed(s);
    ParseFormatKey(ShiftDate(d, unit, amount).value, s);
  }

  /**
   * A key that is copied unchanged is never the new key of a moved entry:
   * an unparsed key would parse, and a filtered key would carry the suffix
   * letter of an entry the filter lets through.
   */
  lemma PassThroughNeverCollides(k1: string, k2: string, unit: string, amount: int, mode: string)
    requires Route(k1, unit, amount, mode).Success? && Route(k1, unit, amount, mode).value.outcome != Moved
    requires Route(k2, unit, amount, mode).Success? && Route(k2, unit, amount, mode).value.outcome == Moved
    ensures Route(k1, unit, amount, mode).value.key != Route(k2, unit, amount, mode).value.key
  {
    MovedKeepsSuffix(k2, unit, amount, mode);
  }

  /** `Route` with the run's unit, amount and filter mode fixed. */
  function Router(unit: string, amount: int, mode: string): string -> Result<Routed, ShiftError>
  {
    key => Route(key, unit, amount, mode)
  }

  /** The counters `shift_value_map` returns. */
  datatype Stats = Stats(changed: nat, invalid: nat, filtered: nat, overwrittenInLot: nat)

  /** The state of the loop: the dict built so far and the counters. */
  datatype State = State(result: seq<(string, string)>, stats: Stats)

  /**
   * The loop's state once one more entry, routed to `x`, has been written:
   * its text goes under `x.key` and the counter of its outcome goes up; a
   * moved entry whose key is already present is also counted as an overwrite.
   */
  function Record(st: State, x: Routed, text: string): State
  {
    var s := st.stats;
    State(Put(st.result, x.key, text),
      match x.outcome
      case Unparsed => s.(invalid := s.invalid + 1)
      case Filtered => s.(filtered := s.filtered + 1)
      case Moved =>
        s.(changed := s.changed + 1, overwrittenInLot := s.overwrittenInLot + if HasKey(st.result, x.key) then 1 else 0))
  }

  /** The loop run over the first `n` entries, or the error of the first of them that fails. */
  function Run(es: seq<(string, string)>, n: nat, route: string -> Result<Routed, ShiftError>): Result<State, ShiftError>
    requires n <= |es|
  {
    if n == 0 then Success(State([], Stats(0, 0, 0, 0)))
    else
      match Run(es, n - 1, route)
      case Failure(e) => Failure(e)
      case Success(st) =>
        match route(es[n - 1].0)
        case Failure(e) => Failure(e)
        case Success(x) => Success(Record(st, x, es[n - 1].1))
  }

  /** Once an entry has failed, later entries do not change the outcome. */
  lemma {:induction false} RunFailureSticks(es: seq<(string, string)>, i: nat, n: nat, route: string -> Result<Routed, ShiftError>)
    requires i <= n <= |es| && Run(es, i, route).Failure?
    ensures Run(es, n, route) == Run(es, i, route)
    decreases n
  {
    if n > i {
      RunFailureSticks(es, i, n - 1, route);
    }
  }

  /** What `shift_value_map` returns: the resulting dict sorted by key, and its counters. */
  function ShiftSpec(es: seq<(string, string)>, unit: string, amount: int, mode: string): Result<(seq<(string, string)>, Stats), ShiftError>
  {
    match Run(es, |es|, Router(unit, amount, mode))
    case Failure(e) => Failure(e)
    case Success(st) => Success((SortByKey(st.result), st.stats))
  }

  /**
   * The loop of `shift_value_map`: each entry in insertion order is routed,
   * its text written to the result under the routed key, and the counter of
   * its outcome increased; the first exception ends the run.
   */
  method ShiftEntries(valueMap: seq<(string, string)>, route: string -> Result<Routed, ShiftError>)
    returns (r: Result<State, ShiftError>)
    ensures r == Run(valueMap, |valueMap|, route)
  {
    var result: seq<(string, string)> := [];
    var changed: nat, invalid: nat, filtered: nat, overwritten: nat := 0, 0, 0, 0;
    var i := 0;
    while i < |valueMap|
      invariant i <= |valueMap|
      invariant Run(valueMap, i, route) == Success(State(result, Stats(changed, invalid, filtered, overwritten)))
    {
      var (key, text) := valueMap[i];
      var routed := route(key);
      if routed.Failure? {
        RunFailureSticks(valueMap, i + 1, |valueMap|, route);
        return Failure(routed.error);
      }
      var x := routed.value;
      ghost var next := Record(State(result, Stats(changed, invalid, filtered, overwritten)), x, text);
      assert Run(valueMap, i + 1, route) == Success(next);
      match x.outcome {
        case Unparsed =>
          invalid := invalid + 1;
        case Filtered =>
          filtered := filtered + 1;
        case Moved =>
          if HasKey(result, x.key) {
            overwritten := overwritten + 1;
          }
          changed := changed + 1;
      }
      result := Put(result, x.key, text);
      assert next == State(result, Stats(changed, invalid, filtered, overwritten));
      i := i + 1;
      assert Run(valueMap, i, route) == Success(State(result, Stats(changed, invalid, filtered, overwritten)));
    }
    r := Success(State(result, Stats(changed, invalid, filtered, overwritten)));
  }

  /** `shift_value_map(value_map, unit, n, filter_mode)`: the loop, then the result sorted by key. */
  method ShiftValueMap(valueMap: seq<(string, string)>, unit: string, amount: int, mode: string)
    returns (r: Result<(seq<(string, string)>, Stats), ShiftError>)
    ensures r == ShiftSpec(valueMap, unit, amount, mode)
  {
    var run := ShiftEntries(valueMap, Router(unit, amount, mode));
    match run {
      case Failure(e) =>
        r := Failure(e);
      case Success(st) =>
        var sorted := SortByKey(st.result);
        r := Success((sorted, st.stats));
    }
  }

  // ------------------------------------------------- reference definitions

  /** The routes of the first `n` entries, or the error of the first of them that fails. */
  function RouteAll(es: seq<(string, string)>, n: nat, route: string -> Result<Routed, ShiftError>): (r: Result<seq<Routed>, ShiftError>)
    requires n <= |es|
    ensures r.Success? ==> |r.value| == n
  {
    if n == 0 then Success([])
    else
      match RouteAll(es, n - 1, route)
      case Failure(e) => Failure(e)
      case Success(rs) =>
        match route(es[n - 1].0)
        case Failure(e) => Failure(e)
        case Success(x) => Success(rs + [x])
  }

  /** The run succeeds exactly when every entry can be routed, and then it holds each entry's route. */
  lemma {:induction false} RouteAllRoutes(es: seq<(string, string)>, n: nat, route: string -> Result<Routed, ShiftError>)
    requires n <= |es|
    ensures RouteAll(es, n, route).Success? <==> forall i :: 0 <= i < n ==> route(es[i].0).Success?
    ensures RouteAll(es, n, route).Success? ==>
      var rs := RouteAll(es, n, route).value;
      forall i :: 0 <= i < n ==> route(es[i].0) == Success(rs[i])
  {
    if n > 0 {
      RouteAllRoutes(es, n - 1, route);
    }
  }

  /** The dict writes of the loop: each entry's text under the key it was routed to. */
  function Writes(es: seq<(string, string)>, rs: seq<Routed>): (w: seq<(string, string)>)
    requires |rs| == |es|
    ensures |w| == |es| && forall i :: 0 <= i < |es| ==> w[i] == (rs[i].key, es[i].1)
  {
    seq(|es|, i requires 0 <= i < |es| => (rs[i].key, es[i].1))
  }

  /** How many routes have outcome `o`. */
  function Count(rs: seq<Routed>, o: Outcome): nat
  {
    if rs == [] then 0 else
      var n := |rs| - 1;
      Count(rs[..n], o) + (if rs[n].outcome == o then 1 else 0)
  }

  /** How many moved entries are written under a key an earlier write already holds. */
  function Overwrites(rs: seq<Routed>, ws: seq<(string, string)>): nat
    requires |rs| == |ws|
  {
    if rs == [] then 0 else
      var n := |rs| - 1;
      Overwrites(rs[..n], ws[..n]) + (if rs[n].outcome == Moved && HasKey(ws[..n], ws[n].0) then 1 else 0)
  }

  /** A state holds what the reference definitions give for the entries `es` and their routes `rs`. */
  predicate Agrees(st: State, es: seq<(string, string)>, rs: seq<Routed>)
  {
    && |rs| == |es|
    && var ws := Writes(es, rs);
    && st.result == PutAll(ws)
    && st.stats == Stats(Count(rs, Moved), Count(rs, Unparsed), Count(rs, Filtered), Overwrites(rs, ws))
  }

  lemma WritesSnoc(es: seq<(string, string)>, rs: seq<Routed>, e: (string, string), x: Routed)
    requires |rs| == |es|
    ensures Writes(es + [e], rs + [x]) == Writes(es, rs) + [(x.key, e.1)]
  {
  }

  /** Recording one more routed entry keeps the state in agreement with the reference definitions. */
  lemma RecordStep(st: State, es: seq<(string, string)>, rs: seq<Routed>, e: (string, string), x: Routed)
    requires Agrees(st, es, rs)
    ensures Agrees(Record(st, x, e.1), es + [e], rs + [x])
  {
    var w := Writes(es, rs);
    WritesSnoc(es, rs, e, x);
    PutAllSnoc(w, x.key, e.1);
    PutAllHasKey(w, x.key);
    CountSnoc(rs, x);
    OverwritesSnoc(rs, w, x, (x.key, e.1));
    RecordFields(st, x, e.1);
  }

  lemma RecordFields(st: State, x: Routed, text: string)
    ensures Record(st, x, text).result == Put(st.result, x.key, text)
    ensures Record(st, x, text).stats
      == Stats(st.stats.changed + (if x.outcome == Moved then 1 else 0),
               st.stats.invalid + (if x.outcome == Unparsed then 1 else 0),
               st.stats.filtered + (if x.outcome == Filtered then 1 else 0),
               st.stats.overwrittenInLot + (if x.outcome == Moved && HasKey(st.result, x.key) then 1 else 0))
  {
  }

  lemma CountSnoc(rs: seq<Routed>, x: Routed)
    ensures forall o :: Count(rs + [x], o) == Count(rs, o) + if x.outcome == o then 1 else 0
  {
    assert (rs + [x])[..|rs|] == rs;
  }

  lemma OverwritesSnoc(rs: seq<Routed>, ws: seq<(string, string)>, x: Routed, w: (string, string))
    requires |rs| == |ws|
    ensures Overwrites(rs + [x], ws + [w]) == Overwrites(rs, ws) + if x.outcome == Moved && HasKey(ws, w.0) then 1 else 0
  {
    assert (rs + [x])[..|rs|] == rs && (ws + [w])[..|ws|] == ws;
  }

  /** The run and the routing succeed or fail together. */
  lemma {:induction false} RunSucceeds(es: seq<(string, string)>, n: nat, route: string -> Result<Routed, ShiftError>)
    requires n <= |es|
    ensures Run(es, n, route).Success? <==> RouteAll(es, n, route).Success?
  {
    if n > 0 {
      RunSucceeds(es, n - 1, route);
    }
  }

  /** The last step of a successful run. */
  lemma RunStep(es: seq<(string, string)>, n: nat, route: string -> Result<Routed, ShiftError>)
    requires 0 < n <= |es| && Run(es, n, route).Success? && RouteAll(es, n, route).Success?
    ensures Run(es, n - 1, route).Success? && route(es[n - 1].0).Success? && RouteAll(es, n - 1, route).Success?
    ensures Run(es, n, route).value == Record(Run(es, n - 1, route).value, route(es[n - 1].0).value, es[n - 1].1)
    ensures RouteAll(es, n, route).value == RouteAll(es, n - 1, route).value + [route(es[n - 1].0).value]
  {
  }

  /**
   * The loop computes the reference definitions: the dict is the writes
   * applied in order, and each counter counts its outcome among the routes.
   */
  lemma {:induction false} RunAgrees(es: seq<(string, string)>, n: nat, route: string -> Result<Routed, ShiftError>)
    requires n <= |es| && Run(es, n, route).Success?
    ensures RouteAll(es, n, route).Success? && Agrees(Run(es, n, route).value, es[..n], RouteAll(es, n, route).value)
  {
    RunSucceeds(es, n, route);
    if n > 0 {
      RunStep(es, n, route);
      RunAgrees(es, n - 1, route);
      PrefixSnoc(es, n);
      RecordStep(Run(es, n - 1, route).value, es[..n - 1], RouteAll(es, n - 1, route).value, es[n - 1], route(es[n - 1].0).value);
    }
  }

  // ------------------------------------------------------------ properties

  lemma {:induction false} CountsAddUp(rs: seq<Routed>)
    ensures Count(rs, Moved) + Count(rs, Unparsed) + Count(rs, Filtered) == |rs|
  {
    if rs != [] {
      CountsAddUp(rs[..|rs| - 1]);
    }
  }

  /** The routes of a successful run. */
  function RoutesOf(es: seq<(string, string)>, unit: string, amount: int, mode: string): (rs: seq<Routed>)
    requires ShiftSpec(es, unit, amount, mode).Success?
    ensures |rs| == |es| && forall i :: 0 <= i < |es| ==> Route(es[i].0, unit, amount, mode) == Success(rs[i])
  {
    var route := Router(unit, amount, mode);
    RunSucceeds(es, |es|, route);
    RouteAllRoutes(es, |es|, route);
    RouteAll(es, |es|, route).value
  }

  /** A successful run in terms of the reference definitions. */
  lemma ShiftByReference(es: seq<(string, string)>, unit: string, amount: int, mode: string)
    requires ShiftSpec(es, unit, amount, mode).Success?
    ensures var (m, st) := ShiftSpec(es, unit, amount, mode).value;
      var rs := RoutesOf(es, unit, amount, mode);
      var ws := Writes(es, rs);
      && m == SortByKey(PutAll(ws))
      && st == Stats(Count(rs, Moved), Count(rs, Unparsed), Count(rs, Filtered), Overwrites(rs, ws))
  {
    RunAgrees(es, |es|, Router(unit, amount, mode));
    assert es[..|es|] == es;
  }

  /** Every entry is counted once: as shifted, as unreadable, or as left out by the filter. */
  lemma ShiftCounts(es: seq<(string, string)>, unit: string, amount: int, mode: string)
    requires ShiftSpec(es, unit, amount, mode).Success?
    ensures var st := ShiftSpec(es, unit, amount, mode).value.1;
      st.changed + st.invalid + st.filtered == |es|
  {
    ShiftByReference(es, unit, amount, mode);
    CountsAddUp(RoutesOf(es, unit, amount, mode));
  }

  /** The run fails exactly when some entry has a blank suffix or a shifted date out of range. */
  lemma ShiftFails(es: seq<(string, string)>, unit: string, amount: int, mode: string)
    ensures ShiftSpec(es, unit, amount, mode).Failure? <==>
      exists i :: 0 <= i < |es| && Raises(es[i].0, unit, amount, mode)
  {
    var route := Router(unit, amount, mode);
    RunSucceeds(es, |es|, route);
    RouteAllRoutes(es, |es|, route);
    forall i | 0 <= i < |es|
      ensures route(es[i].0).Failure? <==> Raises(es[i].0, unit, amount, mode)
    {
      assert route(es[i].0) == Route(es[i].0, unit, amount, mode);
    }
  }

  /** Only a write under a key already written can be counted as an overwrite. */
  lemma {:induction false} OverwritesAreRepeats(rs: seq<Routed>, ws: seq<(string, string)>)
    requires |rs| == |ws|
    ensures Overwrites(rs, ws) <= Repeats(ws)
  {
    if rs != [] {
      var n := |rs| - 1;
      OverwritesAreRepeats(rs[..n], ws[..n]);
    }
  }

  /** When only moved entries meet earlier keys, every repeated key is counted as an overwrite. */
  lemma {:induction false} OverwritesAreAllRepeats(rs: seq<Routed>, ws: seq<(string, string)>)
    requires |rs| == |ws|
    requires forall i :: 0 <= i < |ws| && rs[i].outcome != Moved ==> !HasKey(ws[..i], ws[i].0)
    ensures Overwrites(rs, ws) == Repeats(ws)
  {
    if rs != [] {
      var n := |rs| - 1;
      forall i | 0 <= i < n && rs[..n][i].outcome != Moved ensures !HasKey(ws[..n][..i], ws[..n][i].0) {
        assert ws[..n][..i] == ws[..i];
      }
      OverwritesAreAllRepeats(rs[..n], ws[..n]);
    }
  }

  /**
   * The result holds one entry per distinct key written, so entries lost to
   * collisions are at least the overwrites counted.
   */
  lemma ShiftSizeBound(es: seq<(string, string)>, unit: string, amount: int, mode: string)
    requires ShiftSpec(es, unit, amount, mode).Success?
    ensures var (m, st) := ShiftSpec(es, unit, amount, mode).value;
      |m| + st.overwrittenInLot <= |es|
  {
    ShiftByReference(es, unit, amount, mode);
    var rs := RoutesOf(es, unit, amount, mode);
    var ws := Writes(es, rs);
    PutAllSize(ws);
    OverwritesAreRepeats(rs, ws);
  }

  /**
   * For a dict (distinct keys), the overwrite counter accounts exactly for
   * the entries lost: an entry copied unchanged never meets an earlier key.
   */
  lemma ShiftSizeExact(es: seq<(string, string)>, unit: string, amount: int, mode: string)
    requires DistinctKeys(es) && ShiftSpec(es, unit, amount, mode).Success?
    ensures var (m, st) := ShiftSpec(es, unit, amount, mode).value;
      |m| + st.overwrittenInLot == |es|
  {
    ShiftByReference(es, unit, amount, mode);
    var rs := RoutesOf(es, unit, amount, mode);
    var ws := Writes(es, rs);
    forall i | 0 <= i < |ws| && rs[i].outcome != Moved ensures !HasKey(ws[..i], ws[i].0) {
      PassThroughFresh(es, rs, i, unit, amount, mode);
    }
    PutAllSize(ws);
    OverwritesAreAllRepeats(rs, ws);
  }

  /** An entry of a dict copied unchanged is written under a key no earlier entry was routed to. */
  lemma PassThroughFresh(es: seq<(string, string)>, rs: seq<Routed>, i: nat, unit: string, amount: int, mode: string)
    requires DistinctKeys(es) && |rs| == |es| && i < |es|
    requires forall j :: 0 <= j < |es| ==> Route(es[j].0, unit, amount, mode) == Success(rs[j])
    requires rs[i].outcome != Moved
    ensures !HasKey(Writes(es, rs)[..i], Writes(es, rs)[i].0)
  {
    forall j | 0 <= j < i ensures rs[j].key != rs[i].key {
      if rs[j].outcome == Moved {
        PassThroughNeverCollides(es[i].0, es[j].0, unit, amount, mode);
      }
    }
    FreshWrite(es, rs, i);
  }

  lemma FreshWrite(es: seq<(string, string)>, rs: seq<Routed>, i: nat)
    requires |rs| == |es| && i < |es| && forall j :: 0 <= j < i ==> rs[j].key != rs[i].key
    ensures !HasKey(Writes(es, rs)[..i], Writes(es, rs)[i].0)
  {
    var ws := Writes(es, rs);
    assert forall j :: 0 <= j < i ==> ws[..i][j].0 == rs[j].key;
  }

  /** The result is sorted by key, has no key twice, and holds for each key the text of its last write. */
  lemma ShiftResult(es: seq<(string, string)>, unit: string, amount: int, mode: string)
    requires ShiftSpec(es, unit, amount, mode).Success?
    ensures var m := ShiftSpec(es, unit, amount, mode).value.0;
      var ws := Writes(es, RoutesOf(es, unit, amount, mode));
      && SortedByKey(m) && DistinctKeys(m)
      && forall k :: Get(m, k) == LastValue(ws, k)
  {
    ShiftByReference(es, unit, amount, mode);
    var ws := Writes(es, RoutesOf(es, unit, amount, mode));
    PutAllDistinct(ws);
    SortByKeyOfDict(PutAll(ws));
    forall k ensures Get(PutAll(ws), k) == LastValue(ws, k) {
      PutAllGet(ws, k);
    }
  }

  /** A shift by zero rewrites every moved key to one that reads back as the same date and suffix. */
  lemma ZeroShiftKeepsDates(es: seq<(string, string)>, unit: string, mode: string)
    requires ShiftSpec(es, unit, 0, mode).Success?
    ensures var rs := RoutesOf(es, unit, 0, mode);
      forall i :: 0 <= i < |es| && rs[i].outcome == Moved ==> ParseKey(rs[i].key) == ParseKey(es[i].0)
  {
    var rs := RoutesOf(es, unit, 0, mode);
    forall i | 0 <= i < |es| && rs[i].outcome == Moved ensures ParseKey(rs[i].key) == ParseKey(es[i].0) {
      MovedKeepsSuffix(es[i].0, unit, 0, mode);
      ShiftByZero(ParseKey(es[i].0).value.0, unit);
    }
  }
}
