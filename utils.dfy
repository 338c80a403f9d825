/**
 * Key normalisation, batch validation and text previews (`services/utils.py`).
 * A record key has the form `DD/MM/YYYY -<suffix>`; a batch is a JSON object
 * from raw labels to lesson texts.
 */
module Utils {
  import opened Wrappers
  import opened Text
  import opened Dict
  import opened LooseDate

  // ------------------------------------------------------------- cleaning

  /** En dash, em dash and minus sign: the characters `normalize_label` turns into `-`. */
  predicate IsDashVariant(c: char)
  {
    c == '\U{2013}' || c == '\U{2014}' || c == '\U{2212}'
  }

  predicate NoDashVariant(s: string)
  {
    forall i :: 0 <= i < |s| ==> !IsDashVariant(s[i])
  }

  /** Collapsed whitespace and no dash variants: properties every infix keeps. */
  predicate Plain(s: string)
  {
    Collapsed(s) && NoDashVariant(s)
  }

  /** What `normalize_label` leaves before it looks for a date. */
  predicate IsClean(s: string)
  {
    Trimmed(s) && Plain(s)
  }

  /** A piece of a plain string, given by where it sits, is plain. */
  lemma PlainPart(s: string, t: string, k: nat)
    requires Plain(s) && k + |t| <= |s| && forall i :: 0 <= i < |t| ==> t[i] == s[k + i]
    ensures Plain(t)
  {
    CollapsedPart(s, t, k);
  }

  lemma PlainTail(a: string, b: string)
    requires Plain(a + b)
    ensures Plain(b)
  {
    PlainPart(a + b, b, |a|);
  }

  lemma CleanHasNoNewline(s: string)
    requires Collapsed(s)
    ensures NoNewline(s)
  {
    forall i | 0 <= i < |s| ensures s[i] != '\n' {
      if s[i] == '\n' { assert IsSpace(s[i]); }
    }
  }

  /** The three `str.replace` calls mapping dash variants to `-`. */
  function ReplaceDashes(s: string): (r: string)
    ensures |r| == |s| && NoDashVariant(r)
    ensures forall i :: 0 <= i < |s| ==> r[i] == (if IsDashVariant(s[i]) then '-' else s[i])
  {
    seq(|s|, i requires 0 <= i < |s| => if IsDashVariant(s[i]) then '-' else s[i])
  }

  /** Dash variants replaced, `re.sub(r"\s+", " ", ...)`, then `strip()`. */
  function Clean(s: string): (r: string)
    ensures IsClean(r)
  {
    var d := ReplaceDashes(s);
    var c := Collapse(d);
    CollapseChars(d);
    assert NoDashVariant(c) by {
      forall i | 0 <= i < |c| ensures !IsDashVariant(c[i]) {
        if c[i] != ' ' {
          var j :| 0 <= j < |d| && d[j] == c[i];
        }
      }
    }
    PlainStrip(c);
    Strip(c)
  }

  /** Cleaning a clean string changes nothing. */
  lemma CleanOfClean(s: string)
    requires IsClean(s)
    ensures Clean(s) == s
  {
    assert ReplaceDashes(s) == s;
    CollapseOfCollapsed(s);
    StripOfTrimmed(s);
  }

  // -------------------------------------------------------- normalisation

  /**
   * `\s*-\s*(.*)$` after the year, on a cleaned label (which holds no newline):
   * optional spaces, a dash, and the rest, whose `strip()` is the suffix.
   */
  function DashSuffix(rest: string): (r: Option<string>)
    ensures r.Some? ==> Trimmed(r.value)
  {
    var u := LStrip(rest);
    if u != [] && u[0] == '-' then Some(Strip(u[1..])) else None
  }

  lemma DashSuffixPlain(rest: string)
    requires Plain(rest)
    ensures DashSuffix(rest).Some? ==> Plain(DashSuffix(rest).value)
  {
    var u := LStrip(rest);
    if u != [] && u[0] == '-' {
      PlainLStrip(rest);
      PlainDropFirst(u);
      PlainStrip(u[1..]);
    }
  }

  lemma PlainLStrip(s: string)
    requires Plain(s)
    ensures Plain(LStrip(s))
  {
    PlainPart(s, LStrip(s), |s| - |LStrip(s)|);
  }

  lemma PlainDropFirst(s: string)
    requires Plain(s) && s != []
    ensures Plain(s[1..])
  {
    PlainPart(s, s[1..], 1);
  }

  lemma PlainStrip(s: string)
    requires Plain(s)
    ensures Plain(Strip(s))
  {
    PlainPart(s, Strip(s), StripOffset(s));
  }

  /** The rewritten key: the padded date, ` -`, and the suffix or `P` when it is empty. */
  function Relabel(p: Parts, suffix: string): (r: string)
    requires WellFormed(p)
  {
    DateLabel(p) + (" -" + (if suffix == [] then "P" else suffix))
  }

  /** `normalize_label` on a string. */
  function NormalizeText(raw: string): (r: string)
    ensures IsClean(r)
  {
    Rewrite(Clean(raw))
  }

  /** The date rewriting `normalize_label` applies once dashes and whitespace are cleaned. */
  function Rewrite(c: string): (r: string)
    requires IsClean(c)
    ensures IsClean(r)
  {
    match MatchDate(c)
    case None => c
    case Some(p) =>
      match DashSuffix(p.rest)
      case Some(suffix) =>
        RestOfJoinedIsPlain(p, c);
        DashSuffixPlain(p.rest);
        RelabelIsClean(p, suffix);
        Relabel(p, suffix)
      case None =>
        match BareDate(c)
        case Some(q) =>
          RelabelIsClean(q, []);
          Relabel(q, [])
        case None => c
  }

  lemma RestOfJoinedIsPlain(p: Parts, c: string)
    requires Joined(p) == c && Plain(c)
    ensures Plain(p.rest)
  {
    var t2 := p.year + p.rest;
    var t1 := p.month + ("/" + t2);
    PlainTail(p.day, "/" + t1);
    PlainTail("/", t1);
    PlainTail(p.month, "/" + t2);
    PlainTail("/", t2);
    PlainTail(p.year, p.rest);
  }

  lemma RelabelIsClean(p: Parts, suffix: string)
    requires WellFormed(p) && Trimmed(suffix) && Plain(suffix)
    ensures IsClean(Relabel(p, suffix))
  {
    LabelIsClean(DateLabel(p), if suffix == [] then "P" else suffix);
  }

  lemma LabelIsClean(s: string, x: string)
    requires DateShape(s) && x != [] && Trimmed(x) && Plain(x)
    ensures IsClean(s + (" -" + x))
  {
    assert Plain(s) by {
      forall i | 0 <= i < |s| ensures !IsSpace(s[i]) && !IsDashVariant(s[i]) {
        if i >= 6 { assert s[6..][i - 6] == s[i]; }
      }
    }
    assert Plain(" -");
    CollapsedConcat(" -", x);
    var tail := " -" + x;
    assert Plain(tail) by {
      forall i | 0 <= i < |tail| ensures !IsDashVariant(tail[i]) {
        if i >= 2 { assert tail[i] == x[i - 2]; }
      }
    }
    CollapsedConcat(s, tail);
    var r := s + tail;
    assert NoDashVariant(r) by {
      forall i | 0 <= i < |r| ensures !IsDashVariant(r[i]) {
        if i >= |s| { assert r[i] == tail[i - |s|]; }
      }
    }
  }

  /**
   * A key already in normalised form is left as it is: a padded date of four
   * year digits, or of five (which no longer reads as a date), then ` -` and a
   * trimmed, non-empty suffix.
   */
  lemma NormalizeFixes(s: string, suffix: string)
    requires DateShape(s) && suffix != [] && Trimmed(suffix) && Plain(suffix)
    ensures NormalizeText(s + (" -" + suffix)) == s + (" -" + suffix)
  {
    var rest := " -" + suffix;
    var k := s + rest;
    ShapeMatch(s, rest);
    LabelIsClean(s, suffix);
    CleanOfClean(k);
    if |s| == 10 {
      DashSuffixOf(suffix);
      var p := ShapeParts(s, rest);
      assert MatchDate(k) == Some(p);
      assert Relabel(p, suffix) == k;
    }
  }

  lemma DashSuffixOf(suffix: string)
    requires Trimmed(suffix)
    ensures DashSuffix(" -" + suffix) == Some(suffix)
  {
    assert " -" + suffix == " " + ("-" + suffix);
    assert AllSpaces(" ");
    DashSuffixAfter(" ", suffix);
    StripOfTrimmed(suffix);
  }

  /** A rewritten key is a fixed point. */
  lemma NormalizeRelabel(p: Parts, suffix: string)
    requires WellFormed(p) && Trimmed(suffix) && Plain(suffix)
    ensures NormalizeText(Relabel(p, suffix)) == Relabel(p, suffix)
  {
    NormalizeFixes(DateLabel(p), if suffix == [] then "P" else suffix);
  }

  /** Normalising twice gives what normalising once gives. */
  lemma NormalizeIdempotent(raw: string)
    ensures NormalizeText(NormalizeText(raw)) == NormalizeText(raw)
  {
    var c := Clean(raw);
    match MatchDate(c)
    case None =>
      CleanOfClean(c);
    case Some(p) =>
      match DashSuffix(p.rest)
      case Some(suffix) =>
        RestOfJoinedIsPlain(p, c);
        DashSuffixPlain(p.rest);
        NormalizeRelabel(p, suffix);
      case None =>
        match BareDate(c)
        case Some(q) =>
          NormalizeRelabel(q, []);
        case None =>
          CleanOfClean(c);
  }

  // --------------------------------------------------------------- labels

  /** A JSON value, as far as the validator looks at it: a string or something else. */
  datatype Json = JString(text: string) | JOther

  /** `normalize_label(label)`: a string is normalised, anything else becomes the empty string. */
  function NormalizeLabel(x: Json): (r: string)
    ensures IsClean(r)
  {
    match x
    case JString(t) => NormalizeText(t)
    case JOther => []
  }

  /** Feeding a normalised label back in changes nothing, and a non-string settles at `""`. */
  lemma NormalizeLabelIdempotent(x: Json)
    ensures NormalizeLabel(JString(NormalizeLabel(x))) == NormalizeLabel(x)
    ensures x.JOther? ==> NormalizeLabel(x) == []
  {
    match x
    case JString(t) => NormalizeIdempotent(t);
    case JOther => NormalizeNothing();
  }

  lemma NormalizeNothing()
    ensures NormalizeText([]) == []
  {
    CleanOfClean([]);
    assert MatchDate([]) == None;
  }

  /** The three dash variants are read exactly as `-`. */
  lemma NormalizeDashVariants(raw: string)
    ensures NormalizeText(ReplaceDashes(raw)) == NormalizeText(raw)
  {
    assert ReplaceDashes(ReplaceDashes(raw)) == ReplaceDashes(raw);
    assert Clean(ReplaceDashes(raw)) == Clean(raw);
  }

  /**
   * A clean label made of a loose date, a dash with at most one space on
   * either side, and a suffix is rewritten to the padded date, ` -` and the
   * suffix, or `P` when the suffix is empty.
   */
  lemma NormalizeDatedLabel(d: string, m: string, y: string, gap: string, gap2: string, x: string)
    requires WellFormed(Parts(d, m, y, gap + "-" + gap2 + x))
    requires (gap == [] || gap == " ") && (gap2 == [] || gap2 == " ") && Trimmed(x)
    requires IsClean(Joined(Parts(d, m, y, gap + "-" + gap2 + x)))
    ensures NormalizeText(Joined(Parts(d, m, y, gap + "-" + gap2 + x)))
         == ZFill(d, 2) + "/" + ZFill(m, 2) + "/" + ExpandYear(y) + " -" + (if x == [] then "P" else x)
  {
    var p := Parts(d, m, y, gap + "-" + gap2 + x);
    NormalizeDashed(p, gap, gap2, x);
    DateLabelText(p);
    ConcatAssoc(DateLabel(p), " -", if x == [] then "P" else x);
  }

  lemma NormalizeDashed(p: Parts, gap: string, gap2: string, x: string)
    requires WellFormed(p) && IsClean(Joined(p))
    requires (gap == [] || gap == " ") && (gap2 == [] || gap2 == " ") && Trimmed(x)
    requires p.rest == gap + "-" + gap2 + x
    ensures NormalizeText(Joined(p)) == Relabel(p, x)
  {
    CleanOfClean(Joined(p));
    MatchJoined(p);
    DashAfterGap(gap, gap2, x);
  }

  lemma ConcatAssoc(a: string, b: string, c: string)
    ensures a + (b + c) == a + b + c
  {
  }

  lemma DashAfterGap(gap: string, gap2: string, x: string)
    requires (gap == [] || gap == " ") && (gap2 == [] || gap2 == " ") && Trimmed(x)
    ensures DashSuffix(gap + "-" + gap2 + x) == Some(x)
  {
    assert gap + "-" + gap2 + x == gap + ("-" + (gap2 + x));
    assert AllSpaces(gap) && AllSpaces(gap2);
    DashSuffixAfter(gap, gap2 + x);
    StripAfter(gap2, x);
  }

  /** Whitespace, a dash, and `y`: the suffix is `y` stripped. */
  lemma DashSuffixAfter(gap: string, y: string)
    requires AllSpaces(gap)
    ensures DashSuffix(gap + ("-" + y)) == Some(Strip(y))
  {
    var u := "-" + y;
    LStripAfter(gap, u);
    assert u[0] == '-' && u[1..] == y;
  }

  /** A bare loose date with nothing after it gets the padded date and ` -P`. */
  lemma NormalizeBareDate(p: Parts)
    requires WellFormed(p) && p.rest == [] && IsClean(Joined(p))
    ensures NormalizeText(Joined(p)) == ZFill(p.day, 2) + "/" + ZFill(p.month, 2) + "/" + ExpandYear(p.year) + " -P"
  {
    NormalizeBare(p);
    RelabelBare(p);
    DateLabelText(p);
  }

  lemma RelabelBare(p: Parts)
    requires WellFormed(p)
    ensures Relabel(p, []) == DateLabel(p) + " -P"
  {
  }

  lemma NormalizeBare(p: Parts)
    requires WellFormed(p) && p.rest == [] && IsClean(Joined(p))
    ensures NormalizeText(Joined(p)) == Relabel(p, [])
  {
    CleanOfClean(Joined(p));
    MatchJoined(p);
    assert DashSuffix([]) == None;
  }

  /** A two-digit year gains `20`. */
  lemma NormalizeShortYear()
    ensures NormalizeText("1/2/24") == "01/02/2024 -P"
  {
    ShortYearParts();
    ShortYearClean();
    ShortYearText();
    NormalizeBareDate(Parts("1", "2", "24", ""));
  }

  lemma ShortYearParts()
    ensures WellFormed(Parts("1", "2", "24", "")) && Joined(Parts("1", "2", "24", "")) == "1/2/24"
  {
  }

  lemma ShortYearClean()
    ensures IsClean("1/2/24")
  {
    NoSpaceClean("1/2/24");
  }

  lemma ShortYearText()
    ensures ZFill("1", 2) + "/" + ZFill("2", 2) + "/" + ExpandYear("24") + " -P" == "01/02/2024 -P"
  {
  }

  /** A three-digit year also gains `20`, and an en dash counts as a dash. */
  lemma NormalizeThreeDigitYear()
    ensures NormalizeText("5/3/123\U{2013}T") == "05/03/20123 -T"
  {
    NormalizeDashVariants("5/3/123\U{2013}T");
    ThreeDigitYearParts();
    ThreeDigitYearClean();
    ThreeDigitYearText();
    NormalizeDatedLabel("5", "3", "123", [], [], "T");
  }

  lemma ThreeDigitYearParts()
    ensures ReplaceDashes("5/3/123\U{2013}T") == "5/3/123-T"
    ensures WellFormed(Parts("5", "3", "123", [] + "-" + [] + "T"))
    ensures Joined(Parts("5", "3", "123", [] + "-" + [] + "T")) == "5/3/123-T"
  {
  }

  lemma ThreeDigitYearClean()
    ensures IsClean("5/3/123-T")
  {
    NoSpaceClean("5/3/123-T");
  }

  lemma ThreeDigitYearText()
    ensures ZFill("5", 2) + "/" + ZFill("3", 2) + "/" + ExpandYear("123") + " -" + "T" == "05/03/20123 -T"
  {
  }

  /** No calendar check: month 99 stays. */
  lemma NormalizeNoCalendar()
    ensures NormalizeText("99/99/2024") == "99/99/2024 -P"
  {
    NoCalendarParts();
    NoCalendarClean();
    NoCalendarText();
    NormalizeBareDate(Parts("99", "99", "2024", ""));
  }

  lemma NoCalendarParts()
    ensures WellFormed(Parts("99", "99", "2024", "")) && Joined(Parts("99", "99", "2024", "")) == "99/99/2024"
  {
  }

  lemma NoCalendarClean()
    ensures IsClean("99/99/2024")
  {
    NoSpaceClean("99/99/2024");
  }

  lemma NoCalendarText()
    ensures ZFill("99", 2) + "/" + ZFill("99", 2) + "/" + ExpandYear("2024") + " -P" == "99/99/2024 -P"
  {
  }

  /** A string with neither whitespace nor dash variants is clean. */
  lemma NoSpaceClean(s: string)
    requires forall i :: 0 <= i < |s| ==> !IsSpace(s[i]) && !IsDashVariant(s[i])
    ensures IsClean(s)
  {
  }

  // ----------------------------------------------------------- validation

  /**
   * `re.match(r"^\d{2}/\d{2}/\d{4} -.+$", s)`: the padded date, ` -`, and at
   * least one more character before the end of the line; `$` also accepts a
   * single newline at the very end.
   */
  predicate Canonical(s: string)
  {
    && |s| >= 12
    && IsDigit(s[0]) && IsDigit(s[1]) && s[2] == '/' && IsDigit(s[3]) && IsDigit(s[4]) && s[5] == '/'
    && IsDigit(s[6]) && IsDigit(s[7]) && IsDigit(s[8]) && IsDigit(s[9])
    && s[10] == ' ' && s[11] == '-'
    && LineToEnd(s[12..])
  }

  /** `.+$`: a non-empty run of characters other than a newline, then the end or a final newline. */
  predicate LineToEnd(t: string)
  {
    || (t != [] && NoNewline(t))
    || (|t| >= 2 && t[|t| - 1] == '\n' && NoNewline(t[..|t| - 1]))
  }

  /** Why an entry of a batch is refused; the key `"__root__"` carries `RootNotAnObject`. */
  datatype Problem = ValueNotText | KeyOffPattern | DuplicateKey(normalized: string) | RootNotAnObject

  /** What a batch was decoded to: a JSON object with its entries in order, or some other JSON value. */
  datatype Batch = JsonObject(entries: seq<(string, Json)>) | NotAnObject

  const RootKey := "__root__"

  /**
   * The verdict on one entry given the entries accepted before it, checked in
   * the order the validator checks. The normaliser is a parameter so that the
   * bookkeeping below can be stated for any normaliser; the validator uses
   * `NormalizeText`.
   */
  function Verdict(accepted: seq<(string, string)>, nk: string, v: Json): (r: Option<Problem>)
  {
    if !v.JString? then Some(ValueNotText)
    else if !Canonical(nk) then Some(KeyOffPattern)
    else if HasKey(accepted, nk) then Some(DuplicateKey(nk))
    else None
  }

  /** The normalised map after the first `n` entries. */
  function Accepted(es: seq<(string, Json)>, n: nat, normalize: string -> string): seq<(string, string)>
    requires n <= |es|
  {
    if n == 0 then [] else
      var acc := Accepted(es, n - 1, normalize);
      var nk := normalize(es[n - 1].0);
      if Verdict(acc, nk, es[n - 1].1).None? then acc + [(nk, es[n - 1].1.text)] else acc
  }

  /** The verdict on entry `i`. */
  function ProblemOf(es: seq<(string, Json)>, i: nat, normalize: string -> string): Option<Problem>
    requires i < |es|
  {
    Verdict(Accepted(es, i, normalize), normalize(es[i].0), es[i].1)
  }

  /** The writes into the error map made by the first `n` entries, under their raw keys. */
  function Rejected(es: seq<(string, Json)>, n: nat, normalize: string -> string): seq<(string, Problem)>
    requires n <= |es|
  {
    if n == 0 then [] else
      match ProblemOf(es, n - 1, normalize)
      case None => Rejected(es, n - 1, normalize)
      case Some(p) => Rejected(es, n - 1, normalize) + [(es[n - 1].0, p)]
  }

  /** `validate_value_map` as a function of the batch. */
  function ValidateSpec(b: Batch): (seq<(string, string)>, seq<(string, Problem)>)
  {
    match b
    case NotAnObject => ([], [(RootKey, RootNotAnObject)])
    case JsonObject(es) => (Accepted(es, |es|, NormalizeText), PutAll(Rejected(es, |es|, NormalizeText)))
  }

  /** `validate_value_map(value_map)`: the normalised map and the errors by raw key. */
  method ValidateValueMap(b: Batch) returns (norm: seq<(string, string)>, errors: seq<(string, Problem)>)
    ensures (norm, errors) == ValidateSpec(b)
  {
    if b.NotAnObject? {
      return [], [(RootKey, RootNotAnObject)];
    }
    var es := b.entries;
    norm, errors := [], [];
    var i := 0;
    while i < |es|
      invariant i <= |es|
      invariant norm == Accepted(es, i, NormalizeText) && errors == PutAll(Rejected(es, i, NormalizeText))
    {
      var (k, v) := es[i];
      ValidateStep(es, i, NormalizeText);
      if !v.JString? {
        errors := Put(errors, k, ValueNotText);
      } else {
        var nk := NormalizeText(k);
        if !Canonical(nk) {
          errors := Put(errors, k, KeyOffPattern);
        } else if HasKey(norm, nk) {
          errors := Put(errors, k, DuplicateKey(nk));
        } else {
          norm := Put(norm, nk, v.text);
        }
      }
      i := i + 1;
    }
  }

  /** One entry's effect on the two maps. */
  lemma ValidateStep(es: seq<(string, Json)>, i: nat, normalize: string -> string)
    requires i < |es|
    ensures ProblemOf(es, i, normalize).None?
        ==> Accepted(es, i + 1, normalize) == Accepted(es, i, normalize) + [(normalize(es[i].0), es[i].1.text)]
    ensures ProblemOf(es, i, normalize).Some? ==> Accepted(es, i + 1, normalize) == Accepted(es, i, normalize)
    ensures PutAll(Rejected(es, i + 1, normalize))
         == match ProblemOf(es, i, normalize)
            case Some(p) => Put(PutAll(Rejected(es, i, normalize)), es[i].0, p)
            case None => PutAll(Rejected(es, i, normalize))
  {
    var r := Rejected(es, i, normalize);
    match ProblemOf(es, i, normalize)
    case Some(p) =>
      var w := r + [(es[i].0, p)];
      assert Rejected(es, i + 1, normalize) == w;
      assert w[..|r|] == r;
    case None =>
  }

  /** Every entry lands in exactly one of the two maps: with distinct raw keys their sizes add up to the batch size. */
  lemma ValidateAccounting(es: seq<(string, Json)>)
    requires DistinctKeys(es)
    ensures |ValidateSpec(JsonObject(es)).0| + |ValidateSpec(JsonObject(es)).1| == |es|
  {
    SplitSizes(es, |es|, NormalizeText);
    RejectedDistinct(es, |es|, NormalizeText);
    PutAllOfDistinct(Rejected(es, |es|, NormalizeText));
  }

  lemma {:induction false} SplitSizes(es: seq<(string, Json)>, n: nat, normalize: string -> string)
    requires n <= |es|
    ensures |Accepted(es, n, normalize)| + |Rejected(es, n, normalize)| == n
  {
    if n > 0 {
      SplitSizes(es, n - 1, normalize);
    }
  }

  /** A key no entry so far has is not among the error writes. */
  lemma {:induction false} RejectedFresh(es: seq<(string, Json)>, n: nat, normalize: string -> string, k: string)
    requires n <= |es| && forall i :: 0 <= i < n ==> es[i].0 != k
    ensures !HasKey(Rejected(es, n, normalize), k)
  {
    if n > 0 {
      RejectedFresh(es, n - 1, normalize, k);
      var r := Rejected(es, n - 1, normalize);
      match ProblemOf(es, n - 1, normalize)
      case None =>
      case Some(p) =>
        assert Rejected(es, n, normalize) == r + [(es[n - 1].0, p)];
        IndexOfAppend(r, (es[n - 1].0, p), k);
    }
  }

  /** With distinct raw keys, every raw key is written to the error map at most once. */
  lemma {:induction false} RejectedDistinct(es: seq<(string, Json)>, n: nat, normalize: string -> string)
    requires DistinctKeys(es) && n <= |es|
    ensures DistinctKeys(Rejected(es, n, normalize))
  {
    if n > 0 {
      RejectedDistinct(es, n - 1, normalize);
      var r := Rejected(es, n - 1, normalize);
      match ProblemOf(es, n - 1, normalize)
      case None =>
      case Some(p) =>
        RejectedFresh(es, n - 1, normalize, es[n - 1].0);
        SnocDistinct(r, (es[n - 1].0, p));
    }
  }

  /** The normalised map holds only keys of the pattern, each once. */
  lemma {:induction false} AcceptedCanonical(es: seq<(string, Json)>, n: nat, normalize: string -> string)
    requires n <= |es|
    ensures DistinctKeys(Accepted(es, n, normalize))
    ensures forall j :: 0 <= j < |Accepted(es, n, normalize)| ==> Canonical(Accepted(es, n, normalize)[j].0)
  {
    if n > 0 {
      AcceptedCanonical(es, n - 1, normalize);
      var acc := Accepted(es, n - 1, normalize);
      if ProblemOf(es, n - 1, normalize).None? {
        var nk := normalize(es[n - 1].0);
        assert Accepted(es, n, normalize) == Put(acc, nk, es[n - 1].1.text);
      }
    }
  }

  /** Whether entry `x` would put the normalised key `nk` into the map if nothing took it first. */
  predicate Qualifies(x: (string, Json), nk: string, normalize: string -> string)
  {
    x.1.JString? && normalize(x.0) == nk && Canonical(nk)
  }

  /** The text of the first entry, scanning from the front, whose key normalises to `nk`. */
  function FirstText(es: seq<(string, Json)>, nk: string, normalize: string -> string): Option<string>
  {
    if es == [] then None
    else if Qualifies(es[0], nk, normalize) then Some(es[0].1.text)
    else FirstText(es[1..], nk, normalize)
  }

  lemma {:induction false} FirstTextAppend(a: seq<(string, Json)>, x: (string, Json), nk: string, normalize: string -> string)
    ensures FirstText(a + [x], nk, normalize)
         == if FirstText(a, nk, normalize).Some? then FirstText(a, nk, normalize)
            else if Qualifies(x, nk, normalize) then Some(x.1.text) else None
  {
    if a != [] {
      assert (a + [x])[1..] == a[1..] + [x];
      FirstTextAppend(a[1..], x, nk, normalize);
    } else {
      assert [x][1..] == [];
    }
  }

  lemma {:induction false} FirstTextExtend(a: seq<(string, Json)>, b: seq<(string, Json)>, nk: string, normalize: string -> string)
    requires FirstText(a, nk, normalize).Some?
    ensures FirstText(a + b, nk, normalize) == FirstText(a, nk, normalize)
  {
    assert (a + b)[0] == a[0];
    if !Qualifies(a[0], nk, normalize) {
      assert (a + b)[1..] == a[1..] + b;
      FirstTextExtend(a[1..], b, nk, normalize);
    }
  }

  /** Among raw keys that normalise to the same key, the first one in the batch supplies the value. */
  lemma {:induction false} FirstWins(es: seq<(string, Json)>, n: nat, nk: string, normalize: string -> string)
    requires n <= |es|
    ensures Get(Accepted(es, n, normalize), nk) == FirstText(es[..n], nk, normalize)
  {
    if n > 0 {
      FirstWins(es, n - 1, nk, normalize);
      var acc, x := Accepted(es, n - 1, normalize), es[n - 1];
      PrefixSnoc(es, n);
      FirstTextAppend(es[..n - 1], x, nk, normalize);
      var k := normalize(x.0);
      if ProblemOf(es, n - 1, normalize).None? {
        assert Accepted(es, n, normalize) == Put(acc, k, x.1.text);
        PutLookup(acc, k, x.1.text);
      } else if x.1.JString? && Canonical(k) && k == nk {
        assert HasKey(acc, nk);
      }
    }
  }

  /** Validation keeps, for every normalised key, the text of the first entry with that key. */
  lemma ValidateFirstWins(es: seq<(string, Json)>, nk: string)
    ensures Get(ValidateSpec(JsonObject(es)).0, nk) == FirstText(es, nk, NormalizeText)
  {
    FirstWins(es, |es|, nk, NormalizeText);
    assert es[..|es|] == es;
  }

  /** The error map, looked up under an entry's raw key, gives that entry's verdict. */
  lemma ErrorOfEntry(es: seq<(string, Json)>, i: nat)
    requires DistinctKeys(es) && i < |es|
    ensures Get(ValidateSpec(JsonObject(es)).1, es[i].0) == ProblemOf(es, i, NormalizeText)
  {
    ErrorAfter(es, i, |es|, NormalizeText);
    PutAllGet(Rejected(es, |es|, NormalizeText), es[i].0);
  }

  /** The last error written under an entry's raw key, when no other entry has that key, is the entry's verdict. */
  lemma {:induction false} ErrorAfter(es: seq<(string, Json)>, i: nat, n: nat, normalize: string -> string)
    requires i < n <= |es| && forall j :: 0 <= j < n && j != i ==> es[j].0 != es[i].0
    ensures LastValue(Rejected(es, n, normalize), es[i].0) == ProblemOf(es, i, normalize)
  {
    if n == i + 1 {
      ErrorWritten(es, n, normalize);
    } else {
      ErrorAfter(es, i, n - 1, normalize);
      ErrorSkipped(es, n, normalize, es[i].0);
    }
  }

  /** Entry `n - 1` writes its verdict, if any, under its own raw key. */
  lemma ErrorWritten(es: seq<(string, Json)>, n: nat, normalize: string -> string)
    requires 0 < n <= |es| && forall j :: 0 <= j < n - 1 ==> es[j].0 != es[n - 1].0
    ensures LastValue(Rejected(es, n, normalize), es[n - 1].0) == ProblemOf(es, n - 1, normalize)
  {
    var w, k := Rejected(es, n - 1, normalize), es[n - 1].0;
    RejectedFresh(es, n - 1, normalize, k);
    LastValueNone(w, k);
    match ProblemOf(es, n - 1, normalize)
    case None =>
    case Some(p) =>
      LastValueSnoc(w, (k, p), k);
  }

  /** Entry `n - 1` writes nothing under another raw key. */
  lemma ErrorSkipped(es: seq<(string, Json)>, n: nat, normalize: string -> string, k: string)
    requires 0 < n <= |es| && es[n - 1].0 != k
    ensures LastValue(Rejected(es, n, normalize), k) == LastValue(Rejected(es, n - 1, normalize), k)
  {
    match ProblemOf(es, n - 1, normalize)
    case None =>
    case Some(p) =>
      LastValueSnoc(Rejected(es, n - 1, normalize), (es[n - 1].0, p), k);
  }

  /** An accepted entry's text is what the normalised map holds under its normalised key. */
  lemma AcceptedEntry(es: seq<(string, Json)>, i: nat)
    requires i < |es| && ProblemOf(es, i, NormalizeText).None?
    ensures Get(ValidateSpec(JsonObject(es)).0, NormalizeText(es[i].0)) == Some(es[i].1.text)
  {
    AcceptedAt(es, i, NormalizeText);
    ValidateFirstWins(es, NormalizeText(es[i].0));
  }

  lemma AcceptedAt(es: seq<(string, Json)>, i: nat, normalize: string -> string)
    requires i < |es| && ProblemOf(es, i, normalize).None?
    ensures FirstText(es, normalize(es[i].0), normalize) == Some(es[i].1.text)
  {
    var nk := normalize(es[i].0);
    FirstWins(es, i, nk, normalize);
    PrefixSnoc(es, i + 1);
    FirstTextAppend(es[..i], es[i], nk, normalize);
    FirstTextExtend(es[..i + 1], es[i + 1..], nk, normalize);
    PrefixJoin(es, i + 1);
  }

  /** The keys validation accepts all match the pattern, and each appears once. */
  lemma ValidateKeysCanonical(es: seq<(string, Json)>)
    ensures DistinctKeys(ValidateSpec(JsonObject(es)).0)
    ensures forall j :: 0 <= j < |ValidateSpec(JsonObject(es)).0| ==> Canonical(ValidateSpec(JsonObject(es)).0[j].0)
  {
    AcceptedCanonical(es, |es|, NormalizeText);
  }

  // -------------------------------------------------------------- preview

  const DefaultPreviewLength := 48

  const Ellipsis := '\U{2026}'

  /** `s.replace("\n", " ")` */
  function ReplaceNewlines(s: string): (r: string)
    ensures |r| == |s| && NoNewline(r)
    ensures forall i :: 0 <= i < |s| ==> r[i] == (if s[i] == '\n' then ' ' else s[i])
  {
    seq(|s|, i requires 0 <= i < |s| => if s[i] == '\n' then ' ' else s[i])
  }

  /** Python's slice `t[:n]`, where a negative `n` counts from the end. */
  function Head(t: string, n: int): (r: string)
    ensures |r| == if n >= 0 then (if n <= |t| then n else |t|) else (if |t| + n >= 0 then |t| + n else 0)
    ensures forall i :: 0 <= i < |r| ==> r[i] == t[i]
  {
    if n >= 0 then (if n <= |t| then t[..n] else t)
    else if |t| + n >= 0 then t[..|t| + n]
    else []
  }

  /**
   * `preview_text(text, maxlen)`: the stripped text on one line, cut to
   * `maxlen` characters followed by an ellipsis when it is longer.
   */
  function PreviewText(text: string, maxlen: int): (r: string)
    ensures NoNewline(r)
    ensures |ReplaceNewlines(Strip(text))| <= maxlen ==> r == ReplaceNewlines(Strip(text))
    ensures |ReplaceNewlines(Strip(text))| > maxlen >= 0 ==> r == ReplaceNewlines(Strip(text))[..maxlen] + [Ellipsis]
  {
    var t := ReplaceNewlines(Strip(text));
    if |t| > maxlen then
      var r := Head(t, maxlen) + [Ellipsis];
      assert NoNewline(r) by {
        forall i | 0 <= i < |r| ensures r[i] != '\n' {
          if i < |r| - 1 { assert r[i] == t[i]; }
        }
      }
      r
    else t
  }

  /** The one-line text is already stripped: `strip()` before the newline replacement leaves no space at either end. */
  lemma OneLineTrimmed(text: string)
    ensures Trimmed(ReplaceNewlines(Strip(text)))
  {
    var s := Strip(text);
    var t := ReplaceNewlines(s);
    if t != [] {
      assert t[0] == s[0] && t[|t| - 1] == s[|s| - 1];
    }
  }

  /** Previewing a preview with the same non-negative limit changes nothing. */
  lemma PreviewIdempotent(text: string, maxlen: int)
    requires maxlen >= 0
    ensures PreviewText(PreviewText(text, maxlen), maxlen) == PreviewText(text, maxlen)
  {
    var t := ReplaceNewlines(Strip(text));
    OneLineTrimmed(text);
    if |t| <= maxlen {
      OneLineFixed(t);
    } else {
      PreviewOfCut(t, maxlen);
    }
  }

  /** A stripped text without newlines is its own one-line form. */
  lemma OneLineFixed(t: string)
    requires Trimmed(t) && NoNewline(t)
    ensures ReplaceNewlines(Strip(t)) == t
  {
    StripOfTrimmed(t);
    assert ReplaceNewlines(t) == t;
  }

  lemma PreviewOfCut(t: string, maxlen: nat)
    requires Trimmed(t) && NoNewline(t) && |t| > maxlen
    ensures PreviewText(t[..maxlen] + [Ellipsis], maxlen) == t[..maxlen] + [Ellipsis]
  {
    var r := t[..maxlen] + [Ellipsis];
    CutIsOneLine(t, maxlen);
    assert Head(r, maxlen) == r[..maxlen] == t[..maxlen];
  }

  lemma CutIsOneLine(t: string, maxlen: nat)
    requires Trimmed(t) && NoNewline(t) && |t| > maxlen
    ensures ReplaceNewlines(Strip(t[..maxlen] + [Ellipsis])) == t[..maxlen] + [Ellipsis]
  {
    CutTrimmed(t, maxlen);
    CutNoNewline(t, maxlen);
    OneLineFixed(t[..maxlen] + [Ellipsis]);
  }

  lemma CutTrimmed(t: string, maxlen: nat)
    requires Trimmed(t) && |t| > maxlen
    ensures Trimmed(t[..maxlen] + [Ellipsis])
  {
    var r := t[..maxlen] + [Ellipsis];
    assert !IsSpace(Ellipsis);
    if maxlen > 0 { assert r[0] == t[0]; }
  }

  lemma CutNoNewline(t: string, maxlen: nat)
    requires NoNewline(t) && |t| > maxlen
    ensures NoNewline(t[..maxlen] + [Ellipsis])
  {
    assert NoNewline(t[..maxlen]) by {
      forall i | 0 <= i < maxlen ensures t[..maxlen][i] != '\n' { assert t[..maxlen][i] == t[i]; }
    }
    NoNewlineConcat(t[..maxlen], [Ellipsis]);
  }
}
