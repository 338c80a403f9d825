/**
 * The spreadsheet importer (`features/excel_import.py`): it finds the header
 * row of a worksheet, reads a date, a modality and a text cell from every row
 * below it, builds the keys `DD/MM/YYYY -T` / `DD/MM/YYYY -P` row by row and
 * hands the result to the batch validator.
 */
module ExcelImport {
  import opened Wrappers
  import opened Text
  import opened Dict
  import opened Calendar
  import opened LooseDate
  import opened Utils

  // ------------------------------------------------------------- accents

  /**
   * A character `unicodedata.combining` reports as combining, within the
   * Combining Diacritical Marks block (U+034F, the grapheme joiner, has
   * combining class 0).
   */
  predicate IsCombining(c: char)
  {
    '\U{300}' <= c <= '\U{36F}' && c != '\U{34F}'
  }

  /** The accented letters of Latin-1 that NFKD splits into a base letter and combining marks. */
  predicate Accented(c: char)
  {
    || ('\U{C0}' <= c <= '\U{C5}') || ('\U{C7}' <= c <= '\U{CF}') || ('\U{D1}' <= c <= '\U{D6}')
    || ('\U{D9}' <= c <= '\U{DD}') || ('\U{E0}' <= c <= '\U{E5}') || ('\U{E7}' <= c <= '\U{EF}')
    || ('\U{F1}' <= c <= '\U{F6}') || ('\U{F9}' <= c <= '\U{FD}') || c == '\U{FF}'
  }

  /** The base letter NFKD leaves of an accented letter once its combining marks are dropped. */
  function BaseLetter(c: char): (b: char)
    requires Accented(c)
    ensures 'A' <= b <= 'Z' || 'a' <= b <= 'z'
  {
    if c <= '\U{C5}' then 'A'
    else if c == '\U{C7}' then 'C'
    else if c <= '\U{CB}' then 'E'
    else if c <= '\U{CF}' then 'I'
    else if c == '\U{D1}' then 'N'
    else if c <= '\U{D6}' then 'O'
    else if c <= '\U{DC}' then 'U'
    else if c == '\U{DD}' then 'Y'
    else if c <= '\U{E5}' then 'a'
    else if c == '\U{E7}' then 'c'
    else if c <= '\U{EB}' then 'e'
    else if c <= '\U{EF}' then 'i'
    else if c == '\U{F1}' then 'n'
    else if c <= '\U{F6}' then 'o'
    else if c <= '\U{FC}' then 'u'
    else 'y'
  }

  /** A character `_strip_accents` keeps as it is. */
  predicate Unaccented(c: char)
  {
    !IsCombining(c) && !Accented(c)
  }

  /** The capitals `lower()` changes. */
  predicate IsUpper(c: char)
  {
    'A' <= c <= 'Z' || ('\U{C0}' <= c <= '\U{DE}' && c != '\U{D7}')
  }

  /** What accent stripping and `lower()` both leave unchanged. */
  predicate Folded(c: char)
  {
    Unaccented(c) && !IsUpper(c)
  }

  /** `_strip_accents(s)` on a string: NFKD, then the combining marks dropped. */
  function StripAccents(s: string): (r: string)
    ensures |r| <= |s|
    ensures forall i :: 0 <= i < |r| ==> Unaccented(r[i])
    decreases |s|
  {
    if s == [] then []
    else
      var rest := StripAccents(s[1..]);
      if IsCombining(s[0]) then rest
      else if Accented(s[0]) then [BaseLetter(s[0])] + rest
      else [s[0]] + rest
  }

  /** Stripping accents changes nothing in a string that has none. */
  lemma {:induction false} StripAccentsUnaccented(s: string)
    requires forall i :: 0 <= i < |s| ==> Unaccented(s[i])
    ensures StripAccents(s) == s
    decreases |s|
  {
    if s != [] {
      StripAccentsUnaccented(s[1..]);
      assert s == [s[0]] + s[1..];
    }
  }

  /** What accent stripping and `lower()` make of a character that is not a combining mark. */
  function FoldChar(c: char): char
    requires !IsCombining(c)
  {
    LowerChar(if Accented(c) then BaseLetter(c) else c)
  }

  /** Without combining marks, accent stripping works character by character. */
  lemma {:induction false} StripAccentsMap(s: string)
    requires forall i :: 0 <= i < |s| ==> !IsCombining(s[i])
    ensures |StripAccents(s)| == |s|
    ensures forall i :: 0 <= i < |s| ==> StripAccents(s)[i] == if Accented(s[i]) then BaseLetter(s[i]) else s[i]
    decreases |s|
  {
    if s != [] {
      StripAccentsMap(s[1..]);
      var r := StripAccents(s);
      forall i | 1 <= i < |s| ensures r[i] == if Accented(s[i]) then BaseLetter(s[i]) else s[i] {
        assert r[i] == StripAccents(s[1..])[i - 1] && s[i] == s[1..][i - 1];
      }
    }
  }

  /** Without combining marks, folding works character by character. */
  lemma FoldMap(s: string)
    requires forall i :: 0 <= i < |s| ==> !IsCombining(s[i])
    ensures |Fold(s)| == |s| && forall i :: 0 <= i < |s| ==> Fold(s)[i] == FoldChar(s[i])
  {
    StripAccentsMap(s);
  }

  /** Lowering an unaccented character gives a folded one. */
  lemma LowerUnaccented(c: char)
    requires Unaccented(c)
    ensures Folded(LowerChar(c))
  {
  }

  /** A folded character is its own lower case. */
  lemma LowerFolded(c: char)
    requires Folded(c)
    ensures LowerChar(c) == c
  {
  }

  /** `_strip_accents(s).lower()` */
  function Fold(s: string): (r: string)
    ensures |r| <= |s| && forall i :: 0 <= i < |r| ==> Folded(r[i])
  {
    var r := Lower(StripAccents(s));
    assert forall i :: 0 <= i < |r| ==> Folded(r[i]) by {
      forall i | 0 <= i < |r| ensures Folded(r[i]) {
        LowerUnaccented(StripAccents(s)[i]);
      }
    }
    r
  }

  /** Folding a folded string changes nothing. */
  lemma FoldFolded(s: string)
    requires forall i :: 0 <= i < |s| ==> Folded(s[i])
    ensures Fold(s) == s
  {
    StripAccentsUnaccented(s);
    forall i | 0 <= i < |s| ensures LowerChar(s[i]) == s[i] {
      LowerFolded(s[i]);
    }
  }

  /** Folding twice is folding once. */
  lemma FoldIdempotent(s: string)
    ensures Fold(Fold(s)) == Fold(s)
  {
    FoldFolded(Fold(s));
  }

  // ------------------------------------------------------------ headers

  /**
   * `_norm_header(s)` on a string: accents stripped, lower case, `strip()`,
   * then every whitespace run made one space.
   */
  function NormHeader(s: string): string
  {
    Collapse(Strip(Fold(s)))
  }

  /** A normalised header has no outer whitespace, no whitespace run, no accent and no capital. */
  lemma NormHeaderShape(s: string)
    ensures Trimmed(NormHeader(s)) && Collapsed(NormHeader(s))
    ensures forall i :: 0 <= i < |NormHeader(s)| ==> Folded(NormHeader(s)[i])
  {
    var f := Fold(s);
    var r := Collapse(Strip(f));
    CollapseTrimmed(Strip(f));
    StripCollapseChars(f);
    forall i | 0 <= i < |r| ensures Folded(r[i]) {
      if r[i] != ' ' {
        var j :| 0 <= j < |f| && f[j] == r[i];
      }
    }
  }

  /** Normalising a normalised header changes nothing. */
  lemma NormHeaderIdempotent(s: string)
    ensures NormHeader(NormHeader(s)) == NormHeader(s)
  {
    var h := NormHeader(s);
    NormHeaderShape(s);
    FoldFolded(h);
    StripOfTrimmed(h);
    CollapseOfCollapsed(h);
    assert NormHeader(h) == Collapse(Strip(Fold(h)));
  }

  /** Headers are matched regardless of case and accents. */
  lemma NormHeaderFolds(s: string)
    ensures NormHeader(Fold(s)) == NormHeader(s)
  {
    FoldIdempotent(s);
  }

  /** The column a header names. */
  datatype Role = DateColumn | ModalityColumn | MatterColumn

  /** The headers naming the text column, in the order `find_header_row_and_map` lists them (the last can never be met). */
  const TextHeaders: seq<string> :=
    ["materia lecionada", "materia", "conteudo", "conteudo lecionado", "descricao", AccentedDescription]

  const AccentedDescription := "descri\U{E7}\U{E3}o"

  /** The role of a normalised header, checked in the order the scan checks them. */
  function RoleOf(hv: string): Option<Role>
  {
    if hv == "data" || hv == "dia" then Some(DateColumn)
    else if StartsWith(hv, "modalidade") then Some(ModalityColumn)
    else if hv in TextHeaders then Some(MatterColumn)
    else None
  }

  /** The accented spelling in the list of text headers is never met: accents are gone before the test. */
  lemma AccentedHeaderUnreachable(s: string)
    ensures NormHeader(s) != AccentedDescription
  {
    NormHeaderShape(s);
    assert !Folded(AccentedDescription[6]);
  }

  // ------------------------------------------------------------ worksheet

  /** A cell value as the workbook yields it: nothing, a string, an integer, or a date-time at midnight. */
  datatype Cell = Empty | TextCell(text: string) | NumberCell(number: int) | DateCell(date: ValidDate)

  /**
   * A worksheet: its rows from the top, and `max_column`; `max_row` is the number of rows.
   * `maxColumn` is not tied to the row lengths (openpyxl keeps it at least the column of every
   * stored cell); nothing here relies on that, since a cell past its row's end reads as `Empty`.
   */
  datatype Sheet = Sheet(rows: seq<seq<Cell>>, maxColumn: nat)

  function MaxRow(ws: Sheet): nat
  {
    |ws.rows|
  }

  /** `ws.cell(r, c).value`, 1-based; a cell outside the stored rows is empty. */
  function CellAt(ws: Sheet, r: int, c: int): Cell
  {
    if 1 <= r <= |ws.rows| && 1 <= c <= |ws.rows[r - 1]| then ws.rows[r - 1][c - 1] else Empty
  }

  /** `_norm_header(value or "")`: a cell that holds no string reads as the empty header. */
  function HeaderText(v: Cell): (h: string)
    ensures h == if v.TextCell? then NormHeader(v.text) else []
  {
    match v
    case TextCell(t) => NormHeader(t)
    case _ => []
  }

  /** `row_vals`: the normalised headers of row `r`, columns 1 to `max_column`. */
  function HeaderRowOf(ws: Sheet, r: int): (vals: seq<string>)
    ensures |vals| == ws.maxColumn
    ensures forall c :: 0 <= c < ws.maxColumn ==> vals[c] == HeaderText(CellAt(ws, r, c + 1))
  {
    seq(ws.maxColumn, c => HeaderText(CellAt(ws, r, c + 1)))
  }

  // -------------------------------------------------------- header search

  /** `cand`: the column found so far for each role. */
  datatype Candidate = Candidate(date: Option<nat>, modality: Option<nat>, matter: Option<nat>)

  /** The three columns the importer reads. */
  datatype Columns = Columns(date: nat, modality: nat, matter: nat)

  const NoCandidate := Candidate(None, None, None)

  /** Columns used when no scanned row is a header: date 1, modality 2, text 4, header in row 1. */
  const FallbackColumns := Columns(1, 2, 4)

  const DefaultScanRows := 10

  function Pick(cand: Candidate, role: Role): Option<nat>
  {
    match role
    case DateColumn => cand.date
    case ModalityColumn => cand.modality
    case MatterColumn => cand.matter
  }

  /** One step of the column loop: column `c`, with header `hv`, becomes the candidate for its role. */
  function Assign(cand: Candidate, c: nat, hv: string): (r: Candidate)
    ensures forall role :: Pick(r, role) == if RoleOf(hv) == Some(role) then Some(c) else Pick(cand, role)
  {
    match RoleOf(hv)
    case Some(DateColumn) => cand.(date := Some(c))
    case Some(ModalityColumn) => cand.(modality := Some(c))
    case Some(MatterColumn) => cand.(matter := Some(c))
    case None => cand
  }

  /** The candidate after the first `n` columns of a row. */
  function Scan(vals: seq<string>, n: nat): Candidate
    requires n <= |vals|
  {
    if n == 0 then NoCandidate else Assign(Scan(vals, n - 1), n, vals[n - 1])
  }

  /** `all(cand.values())` */
  predicate Complete(cand: Candidate)
  {
    cand.date.Some? && cand.modality.Some? && cand.matter.Some?
  }

  function ColumnsOf(cand: Candidate): Columns
    requires Complete(cand)
  {
    Columns(cand.date.value, cand.modality.value, cand.matter.value)
  }

  /** The candidate row `r` yields once all its columns are scanned. */
  function RowCandidate(ws: Sheet, r: int): Candidate
  {
    Scan(HeaderRowOf(ws, r), ws.maxColumn)
  }

  /**
   * The outcome of scanning rows `r` to `maxScanRows`, row `i` yielding
   * `rowCand(i)`: the first complete row, or the fallback.
   */
  function HeaderFrom(rowCand: int -> Candidate, r: nat, maxScanRows: int): (nat, Columns)
    decreases maxScanRows - r
  {
    if r > maxScanRows then (1, FallbackColumns)
    else if Complete(rowCand(r)) then (r, ColumnsOf(rowCand(r)))
    else HeaderFrom(rowCand, r + 1, maxScanRows)
  }

  function RowCandidates(ws: Sheet): int -> Candidate
  {
    r => RowCandidate(ws, r)
  }

  /** `find_header_row_and_map(ws, max_scan_rows)` */
  function FindHeader(ws: Sheet, maxScanRows: int): (nat, Columns)
  {
    HeaderFrom(RowCandidates(ws), 1, maxScanRows)
  }

  /** The column loop of `find_header_row_and_map` over one row's normalised headers. */
  method ScanRow(rowVals: seq<string>) returns (cand: Candidate)
    ensures cand == Scan(rowVals, |rowVals|)
  {
    cand := NoCandidate;
    var c := 1;
    while c <= |rowVals|
      invariant 1 <= c <= |rowVals| + 1
      invariant cand == Scan(rowVals, c - 1)
    {
      var hv := rowVals[c - 1];
      if hv == "data" || hv == "dia" {
        cand := cand.(date := Some(c));
      } else if StartsWith(hv, "modalidade") {
        cand := cand.(modality := Some(c));
      } else if hv in TextHeaders {
        cand := cand.(matter := Some(c));
      }
      c := c + 1;
    }
  }

  /** `find_header_row_and_map`: rows from the top, each scanned left to right, the first complete one wins. */
  method FindHeaderRowAndMap(ws: Sheet, maxScanRows: int) returns (row: nat, cols: Columns)
    ensures (row, cols) == FindHeader(ws, maxScanRows)
  {
    var r := 1;
    while r <= maxScanRows
      invariant 1 <= r
      invariant HeaderFrom(RowCandidates(ws), r, maxScanRows) == FindHeader(ws, maxScanRows)
      decreases maxScanRows - r
    {
      var cand := ScanRow(HeaderRowOf(ws, r));
      assert RowCandidates(ws)(r) == cand;
      if Complete(cand) {
        return r, ColumnsOf(cand);
      }
      r := r + 1;
    }
    return 1, FallbackColumns;
  }

  /**
   * Within a row the candidate for a role is the last column whose header has
   * that role, and there is none when no header has it.
   */
  lemma {:induction false} ScanPicksLast(vals: seq<string>, n: nat, role: Role)
    requires n <= |vals|
    ensures Pick(Scan(vals, n), role).Some? ==>
      var c := Pick(Scan(vals, n), role).value;
      && 1 <= c <= n && RoleOf(vals[c - 1]) == Some(role)
      && forall j :: c <= j < n ==> RoleOf(vals[j]) != Some(role)
    ensures Pick(Scan(vals, n), role).None? <==> forall j :: 0 <= j < n ==> RoleOf(vals[j]) != Some(role)
  {
    if n > 0 {
      ScanPicksLast(vals, n - 1, role);
      assert Pick(Scan(vals, n), role) == if RoleOf(vals[n - 1]) == Some(role) then Some(n) else Pick(Scan(vals, n - 1), role);
    }
  }

  /**
   * The header row is the first row within the scan window that names all
   * three columns, read with their last matching columns; when no such row
   * exists the result is row 1 with the fallback columns.
   */
  lemma {:induction false} HeaderFromFirst(rowCand: int -> Candidate, r: nat, maxScanRows: int)
    requires 1 <= r
    ensures var (row, cols) := HeaderFrom(rowCand, r, maxScanRows);
      if exists i :: r <= i <= maxScanRows && Complete(rowCand(i)) then
        && r <= row <= maxScanRows && Complete(rowCand(row)) && cols == ColumnsOf(rowCand(row))
        && forall i :: r <= i < row ==> !Complete(rowCand(i))
      else
        row == 1 && cols == FallbackColumns
    decreases maxScanRows - r
  {
    if r <= maxScanRows && !Complete(rowCand(r)) {
      HeaderFromFirst(rowCand, r + 1, maxScanRows);
      if exists i :: r <= i <= maxScanRows && Complete(rowCand(i)) {
        var i :| r <= i <= maxScanRows && Complete(rowCand(i));
        assert r + 1 <= i;
      }
    }
  }

  lemma FindHeaderFirst(ws: Sheet, maxScanRows: int)
    ensures var (row, cols) := FindHeader(ws, maxScanRows);
      if exists r :: 1 <= r <= maxScanRows && Complete(RowCandidate(ws, r)) then
        && 1 <= row <= maxScanRows && Complete(RowCandidate(ws, row))
        && cols == ColumnsOf(RowCandidate(ws, row))
        && forall r :: 1 <= r < row ==> !Complete(RowCandidate(ws, r))
      else
        row == 1 && cols == FallbackColumns
  {
    var rc := RowCandidates(ws);
    HeaderFromFirst(rc, 1, maxScanRows);
    assert forall i :: rc(i) == RowCandidate(ws, i);
  }

  // ------------------------------------------------------------ cell text

  /** The decimal digits of `n`. */
  function Decimal(n: nat): (r: string)
    ensures r != [] && AllDigits(r)
    decreases n
  {
    if n < 10 then [DigitChar(n)] else Decimal(n / 10) + [DigitChar(n % 10)]
  }

  /** `str(n)` for an integer. */
  function IntText(n: int): (r: string)
    ensures forall i :: 0 <= i < |r| ==> IsDigit(r[i]) || r[i] == '-'
  {
    if n < 0 then "-" + Decimal(-n) else Decimal(n)
  }

  /** `str(dt)` for a date-time at midnight: `YYYY-MM-DD 00:00:00`. */
  function DateTimeText(d: ValidDate): string
  {
    Pad4(d.year) + "-" + Pad2(d.month) + "-" + Pad2(d.day) + " 00:00:00"
  }

  /** `str(value)` for a cell that holds something. */
  function CellStr(v: Cell): string
    requires !v.Empty?
  {
    match v
    case TextCell(t) => t
    case NumberCell(n) => IntText(n)
    case DateCell(d) => DateTimeText(d)
  }

  /** `str(v_text).strip() if v_text is not None else ""` */
  function CellText(v: Cell): (t: string)
    ensures Trimmed(t)
  {
    if v.Empty? then [] else Strip(CellStr(v))
  }

  // ----------------------------------------------------------- date cells

  /** `re.sub(r"[^\d/]", "", s)`: only the digits and slashes of `s`, in order. */
  function KeepDateChars(s: string): (r: string)
    ensures |r| <= |s| && forall i :: 0 <= i < |r| ==> IsDigit(r[i]) || r[i] == '/'
    decreases |s|
  {
    if s == [] then []
    else if IsDigit(s[0]) || s[0] == '/' then [s[0]] + KeepDateChars(s[1..])
    else KeepDateChars(s[1..])
  }

  /** Filtering a string of digits and slashes changes nothing. */
  lemma {:induction false} KeepDateCharsFixed(s: string)
    requires forall i :: 0 <= i < |s| ==> IsDigit(s[i]) || s[i] == '/'
    ensures KeepDateChars(s) == s
    decreases |s|
  {
    if s != [] {
      KeepDateCharsFixed(s[1..]);
      assert s == [s[0]] + s[1..];
    }
  }

  /** Filtering a string without slashes leaves only digits. */
  lemma {:induction false} KeepDateCharsNoSlash(s: string)
    requires forall i :: 0 <= i < |s| ==> s[i] != '/'
    ensures AllDigits(KeepDateChars(s))
    decreases |s|
  {
    if s != [] {
      KeepDateCharsNoSlash(s[1..]);
    }
  }

  /** `re.match(r"^(\d{1,2})/(\d{1,2})/(\d{2,4})$", s)` and the rewriting of its groups. */
  function DateToken(s: string): (r: Option<string>)
    ensures r.Some? ==> DateShape(r.value)
  {
    match BareDate(s)
    case Some(p) => Some(DateLabel(p))
    case None => None
  }

  /** `fmt_date_ddmmyyyy(val)` */
  function FmtDate(v: Cell): (r: Option<string>)
    ensures r.Some? ==> DateShape(r.value)
  {
    if v.Empty? || v == TextCell([]) then None
    else if v.DateCell? then
      DateTextShape(v.date);
      Some(DateText(v.date))
    else DateToken(KeepDateChars(Strip(CellStr(v))))
  }

  lemma DateTextShape(d: ValidDate)
    ensures DateShape(DateText(d)) && |DateText(d)| == 10
  {
    var s := DateText(d);
    assert s[..2][0] == s[0] && s[..2][1] == s[1] && s[3..5][0] == s[3] && s[3..5][1] == s[4];
  }

  /** A digit string is never a date token: the first group takes every digit and no `/` follows. */
  lemma DigitsAreNoToken(s: string)
    requires AllDigits(s)
    ensures DateToken(s) == None
  {
    DigitRunOf(s, []);
    assert s + [] == s;
    assert s[|s|..] == [];
  }

  /** A number cell never reads as a date. */
  lemma NumberIsNoDate(n: int)
    ensures FmtDate(NumberCell(n)) == None
  {
    var t := Strip(IntText(n));
    assert forall i :: 0 <= i < |t| ==> t[i] != '/' by {
      forall i | 0 <= i < |t| ensures t[i] != '/' {
        assert t[i] == IntText(n)[StripOffset(IntText(n)) + i];
      }
    }
    KeepDateCharsNoSlash(t);
    DigitsAreNoToken(KeepDateChars(t));
  }

  /** A written-out date with a four-digit year reads back as itself; one with a five-digit year is no date. */
  lemma FmtDateRereads(s: string)
    requires DateShape(s)
    ensures FmtDate(TextCell(s)) == if |s| == 10 then Some(s) else None
  {
    ShapeChars(s);
    StripOfTrimmed(s);
    KeepDateCharsFixed(s);
    ShapeToken(s);
    assert CellStr(TextCell(s)) == s;
    assert FmtDate(TextCell(s)) == DateToken(KeepDateChars(Strip(s)));
  }

  /** A written-out date is trimmed and made of digits and slashes. */
  lemma ShapeChars(s: string)
    requires DateShape(s)
    ensures Trimmed(s) && forall i :: 0 <= i < |s| ==> IsDigit(s[i]) || s[i] == '/'
  {
    assert s[|s| - 1] == s[6..][|s| - 7];
    forall i | 6 <= i < |s| ensures IsDigit(s[i]) {
      assert s[i] == s[6..][i - 6];
    }
  }

  lemma ShapeToken(s: string)
    requires DateShape(s)
    ensures DateToken(s) == if |s| == 10 then Some(s) else None
  {
    ShapeMatch(s, []);
    assert s + [] == s;
  }

  /** What a date cell is written as reads back as the same text. */
  lemma DateCellRereads(d: ValidDate)
    ensures FmtDate(DateCell(d)) == Some(DateText(d))
    ensures FmtDate(TextCell(DateText(d))) == Some(DateText(d))
  {
    DateTextShape(d);
    FmtDateRereads(DateText(d));
  }

  /** Written-out dates are fixed points: formatting what `fmt_date_ddmmyyyy` returned gives it back when its year has four digits. */
  lemma FmtDateIdempotent(v: Cell)
    requires FmtDate(v).Some? && |FmtDate(v).value| == 10
    ensures FmtDate(TextCell(FmtDate(v).value)) == FmtDate(v)
  {
    FmtDateRereads(FmtDate(v).value);
  }

  // ------------------------------------------------------------- modality

  /** `_strip_accents(mod or "")`: a cell that holds no string reads as `""`. */
  function ModText(v: Cell): string
  {
    if v.TextCell? then v.text else []
  }

  /** `mod_to_suffix(mod)`: `T` when the folded text contains `teor`, else `P` when it contains `prat`. */
  function ModToSuffix(v: Cell): (r: Option<char>)
    ensures r.Some? ==> r.value == 'T' || r.value == 'P'
  {
    var m := Fold(ModText(v));
    if Contains(m, "teor") then Some('T')
    else if Contains(m, "prat") then Some('P')
    else None
  }

  /** The modality is read regardless of case and accents. */
  lemma ModToSuffixFolds(s: string)
    ensures ModToSuffix(TextCell(Fold(s))) == ModToSuffix(TextCell(s))
  {
    FoldIdempotent(s);
  }

  /** A cell without a string has no modality. */
  lemma ModNeedsText(v: Cell)
    requires !v.TextCell?
    ensures ModToSuffix(v) == None
  {
    assert Fold([]) == [];
  }

  /** `Teórica` is the theory modality. */
  lemma TheoryExample()
    ensures ModToSuffix(TextCell("Te\U{F3}rica")) == Some('T')
  {
    TheoryFolds();
    assert StartsWith("teorica", "teor");
  }

  lemma TheoryFolds()
    ensures Fold("Te\U{F3}rica") == "teorica"
  {
    var s := "Te\U{F3}rica";
    FoldMap(s);
    assert Fold(s)[0] == 't';
    assert Fold(s)[1] == 'e';
    assert Fold(s)[2] == 'o';
    assert Fold(s)[3] == 'r';
    assert Fold(s)[4] == 'i';
    assert Fold(s)[5] == 'c';
    assert Fold(s)[6] == 'a';
  }

  /** `PRÁTICA` is the practice modality. */
  lemma PracticeExample()
    ensures ModToSuffix(TextCell("PR\U{C1}TICA")) == Some('P')
  {
    PracticeFolds();
    PracticeIsNoTheory();
    assert StartsWith("pratica", "prat");
  }

  lemma PracticeFolds()
    ensures Fold("PR\U{C1}TICA") == "pratica"
  {
    var s := "PR\U{C1}TICA";
    FoldMap(s);
    assert Fold(s)[0] == 'p';
    assert Fold(s)[1] == 'r';
    assert Fold(s)[2] == 'a';
    assert Fold(s)[3] == 't';
    assert Fold(s)[4] == 'i';
    assert Fold(s)[5] == 'c';
    assert Fold(s)[6] == 'a';
  }

  lemma PracticeIsNoTheory()
    ensures !Contains("pratica", "teor")
  {
    var m := "pratica";
    ContainsAt(m, "teor");
    forall i: nat ensures !OccursAt(m, "teor", i) {
      if i + 4 <= |m| {
        assert m[i..i + 4][0] == m[i] && m[i..i + 4][1] == m[i + 1];
      }
    }
  }

  // ----------------------------------------------------------------- rows

  /** `f"{key_date} -{suf}"`: the key a row is filed under. */
  function RowKey(date: string, suffix: char): string
  {
    date + (" -" + [suffix])
  }

  /** The shape of every key the importer builds: a written-out date, ` -`, and `T` or `P`. */
  predicate ImportKey(k: string)
  {
    && 13 <= |k| <= 14
    && DateShape(k[..|k| - 3])
    && k[|k| - 3] == ' ' && k[|k| - 2] == '-' && (k[|k| - 1] == 'T' || k[|k| - 1] == 'P')
  }

  lemma RowKeyShape(date: string, suffix: char)
    requires DateShape(date) && (suffix == 'T' || suffix == 'P')
    ensures ImportKey(RowKey(date, suffix))
  {
    assert RowKey(date, suffix)[..|date|] == date;
  }

  /** An imported key is already normalised. */
  lemma ImportKeyNormal(k: string)
    requires ImportKey(k)
    ensures NormalizeText(k) == k
  {
    var date, suffix := k[..|k| - 3], [k[|k| - 1]];
    assert k == date + (" -" + suffix);
    assert Collapsed(suffix) && NoDashVariant(suffix);
    NormalizeFixes(date, suffix);
  }

  /** An imported key matches the key pattern exactly when its year has four digits. */
  lemma ImportKeyCanonical(k: string)
    requires ImportKey(k)
    ensures Canonical(k) <==> |k| == 13
  {
    if |k| == 13 {
      assert k[12..] == [k[12]];
    } else {
      assert k[10] == k[..11][6..][4];
    }
  }

  /**
   * What row `r` contributes under the columns `cols`: its key and its text,
   * or nothing when the date, the modality or the text is missing.
   */
  function RowEntry(ws: Sheet, cols: Columns, r: int): Option<(string, string)>
  {
    var date := FmtDate(CellAt(ws, r, cols.date));
    var suffix := ModToSuffix(CellAt(ws, r, cols.modality));
    var text := CellText(CellAt(ws, r, cols.matter));
    if date.None? || suffix.None? || text == [] then None
    else Some((RowKey(date.value, suffix.value), text))
  }

  /** A row that is not skipped yields a key of the import shape and a non-empty, stripped text. */
  lemma RowEntryShape(ws: Sheet, cols: Columns, r: int)
    requires RowEntry(ws, cols, r).Some?
    ensures ImportKey(RowEntry(ws, cols, r).value.0)
    ensures RowEntry(ws, cols, r).value.1 != [] && Trimmed(RowEntry(ws, cols, r).value.1)
  {
    var date := FmtDate(CellAt(ws, r, cols.date));
    var suffix := ModToSuffix(CellAt(ws, r, cols.modality));
    RowKeyShape(date.value, suffix.value);
  }

  /** Row `r`'s entry, for every row. */
  function RowEntries(ws: Sheet, cols: Columns): int -> Option<(string, string)>
  {
    r => RowEntry(ws, cols, r)
  }

  /** The counters and `new_items` of the row loop. */
  datatype Tally = Tally(items: seq<(string, string)>, imported: nat, skipped: nat, overwritten: nat)

  /** One pass of the row loop on a row whose entry is `e`. */
  function Consume(t: Tally, e: Option<(string, string)>): Tally
  {
    match e
    case None => t.(skipped := t.skipped + 1)
    case Some((key, text)) =>
      var again := if HasKey(t.items, key) then 1 else 0;
      Tally(Put(t.items, key, text), t.imported + 1, t.skipped, t.overwritten + again)
  }

  /** The loop state after rows `h + 1` to `hi`, row `r` having entry `entry(r)`. */
  function ReadFrom(entry: int -> Option<(string, string)>, h: nat, hi: int): Tally
    decreases hi - h
  {
    if hi <= h then Tally([], 0, 0, 0) else Consume(ReadFrom(entry, h, hi - 1), entry(hi))
  }

  /** The assignments `new_items[key] = text` made by rows `h + 1` to `hi`, in order. */
  function RowWrites(entry: int -> Option<(string, string)>, h: nat, hi: int): seq<(string, string)>
    decreases hi - h
  {
    if hi <= h then [] else
      var w := RowWrites(entry, h, hi - 1);
      match entry(hi)
      case Some(e) => w + [e]
      case None => w
  }

  /** How many of rows `h + 1` to `hi` are skipped. */
  function RowSkips(entry: int -> Option<(string, string)>, h: nat, hi: int): nat
    decreases hi - h
  {
    if hi <= h then 0 else RowSkips(entry, h, hi - 1) + if entry(hi).None? then 1 else 0
  }

  /**
   * The loop state in terms of the writes: `new_items` is the dict they
   * build, `imported` counts them, `overwritten_in_lot` counts those that
   * land on a key already present, `skipped` counts the other rows.
   */
  lemma {:induction false} ReadFromWrites(entry: int -> Option<(string, string)>, h: nat, hi: int)
    ensures ReadFrom(entry, h, hi) == WritesTally(entry, h, hi)
    decreases hi - h
  {
    if hi > h {
      ReadFromWrites(entry, h, hi - 1);
      if entry(hi).None? {
        SkipStep(entry, h, hi);
      } else {
        WriteStep(entry, h, hi);
      }
    }
  }

  /** The loop state the writes of rows `h + 1` to `hi` determine. */
  function WritesTally(entry: int -> Option<(string, string)>, h: nat, hi: int): Tally
  {
    var w := RowWrites(entry, h, hi);
    Tally(PutAll(w), |w|, RowSkips(entry, h, hi), Repeats(w))
  }

  lemma SkipStep(entry: int -> Option<(string, string)>, h: nat, hi: int)
    requires h < hi && entry(hi).None?
    requires ReadFrom(entry, h, hi - 1) == WritesTally(entry, h, hi - 1)
    ensures ReadFrom(entry, h, hi) == WritesTally(entry, h, hi)
  {
    assert RowWrites(entry, h, hi) == RowWrites(entry, h, hi - 1);
  }

  lemma WriteStep(entry: int -> Option<(string, string)>, h: nat, hi: int)
    requires h < hi && entry(hi).Some?
    requires ReadFrom(entry, h, hi - 1) == WritesTally(entry, h, hi - 1)
    ensures ReadFrom(entry, h, hi) == WritesTally(entry, h, hi)
  {
    var w, x := RowWrites(entry, h, hi - 1), entry(hi).value;
    PutAllStep(w, x.0, x.1);
    assert RowWrites(entry, h, hi) == w + [(x.0, x.1)];
  }

  /** Every row below the header is either imported or skipped. */
  lemma {:induction false} RowsAccounted(entry: int -> Option<(string, string)>, h: nat, hi: int)
    ensures |RowWrites(entry, h, hi)| + RowSkips(entry, h, hi) == if hi > h then hi - h else 0
    decreases hi - h
  {
    if hi > h {
      RowsAccounted(entry, h, hi - 1);
    }
  }

  /** `new_items` handed to the validator: a JSON object whose values are all strings. */
  function AsBatch(items: seq<(string, string)>): (b: Batch)
    ensures b.JsonObject? && |b.entries| == |items|
    ensures forall i :: 0 <= i < |items| ==> b.entries[i] == (items[i].0, JString(items[i].1))
  {
    JsonObject(seq(|items|, i requires 0 <= i < |items| => (items[i].0, JString(items[i].1))))
  }

  /** The `stats` dict. */
  datatype Stats = Stats(imported: nat, skipped: nat, overwrittenInLot: nat, errors: seq<(string, Problem)>, valid: nat)

  /** `process_worksheet(ws, validate_value_map)` as a function of the worksheet. */
  function ProcessSpec(ws: Sheet): (seq<(string, string)>, Stats)
  {
    var (h, cols) := FindHeader(ws, DefaultScanRows);
    var t := ReadFrom(RowEntries(ws, cols), h, MaxRow(ws));
    var (norm, errors) := ValidateSpec(AsBatch(t.items));
    (norm, Stats(t.imported, t.skipped, t.overwritten, errors, |norm|))
  }

  /** `process_worksheet`: the header search, one pass over the rows below the header, then the batch validator. */
  method ProcessWorksheet(ws: Sheet) returns (norm: seq<(string, string)>, stats: Stats)
    ensures (norm, stats) == ProcessSpec(ws)
  {
    var h, cols := FindHeaderRowAndMap(ws, DefaultScanRows);
    var items, imported, skipped, overwritten := ReadRows(RowEntries(ws, cols), h, MaxRow(ws));
    var errors;
    norm, errors := ValidateValueMap(AsBatch(items));
    stats := Stats(imported, skipped, overwritten, errors, |norm|);
  }

  /**
   * The row loop of `process_worksheet`: rows `h + 1` to `maxRow`, each
   * skipped or assigned into `new_items`, counting overwrites as it goes;
   * `entry(r)` is what the cells of row `r` yield (`RowEntry`).
   */
  method ReadRows(entry: int -> Option<(string, string)>, h: nat, maxRow: int)
    returns (items: seq<(string, string)>, imported: nat, skipped: nat, overwritten: nat)
    ensures Tally(items, imported, skipped, overwritten) == ReadFrom(entry, h, maxRow)
  {
    items := [];
    imported, skipped, overwritten := 0, 0, 0;
    var r := h + 1;
    while r <= maxRow
      invariant h + 1 <= r && (r <= maxRow + 1 || r == h + 1)
      invariant ReadFrom(entry, h, r - 1) == Tally(items, imported, skipped, overwritten)
      decreases maxRow - r
    {
      match entry(r) {
        case None =>
          skipped := skipped + 1;
        case Some((key, text)) =>
          if HasKey(items, key) {
            overwritten := overwritten + 1;
          }
          items := Put(items, key, text);
          imported := imported + 1;
      }
      r := r + 1;
    }
  }

  // --------------------------------------------------- what the import yields

  /** When every row entry has a key of the import shape, so does every write. */
  lemma {:induction false} WritesKeys(entry: int -> Option<(string, string)>, h: nat, hi: int)
    requires forall r :: entry(r).Some? ==> ImportKey(entry(r).value.0)
    ensures forall j :: 0 <= j < |RowWrites(entry, h, hi)| ==> ImportKey(RowWrites(entry, h, hi)[j].0)
    decreases hi - h
  {
    if hi > h {
      WritesKeys(entry, h, hi - 1);
    }
  }

  /** A key in the dict built by some writes is the key of one of the writes. */
  lemma DictKeys(w: seq<(string, string)>)
    requires forall j :: 0 <= j < |w| ==> ImportKey(w[j].0)
    ensures forall j :: 0 <= j < |PutAll(w)| ==> ImportKey(PutAll(w)[j].0)
  {
    forall j | 0 <= j < |PutAll(w)| ensures ImportKey(PutAll(w)[j].0) {
      var k := PutAll(w)[j].0;
      assert HasKey(PutAll(w), k);
      PutAllHasKey(w, k);
    }
  }

  /** The row entries of a worksheet only use keys of the import shape. */
  lemma RowEntriesKeys(ws: Sheet, cols: Columns)
    ensures forall r :: RowEntries(ws, cols)(r).Some? ==> ImportKey(RowEntries(ws, cols)(r).value.0)
  {
    forall r | RowEntries(ws, cols)(r).Some? ensures ImportKey(RowEntries(ws, cols)(r).value.0) {
      RowEntryShape(ws, cols, r);
    }
  }

  /** The items among the first `n` whose key has a four-digit year, in order. */
  function WellKeyed(items: seq<(string, string)>, n: nat): seq<(string, string)>
    requires n <= |items|
  {
    if n == 0 then []
    else WellKeyed(items, n - 1) + if |items[n - 1].0| == 13 then [items[n - 1]] else []
  }

  /** An off-pattern error for each of the first `n` items whose key has a longer year, in order. */
  function OffPattern(items: seq<(string, string)>, n: nat): seq<(string, Problem)>
    requires n <= |items|
  {
    if n == 0 then []
    else OffPattern(items, n - 1) + if |items[n - 1].0| == 13 then [] else [(items[n - 1].0, KeyOffPattern)]
  }

  lemma {:induction false} WellKeyedFresh(items: seq<(string, string)>, n: nat, k: string)
    requires n <= |items| && forall j :: 0 <= j < n ==> items[j].0 != k
    ensures !HasKey(WellKeyed(items, n), k)
  {
    if n > 0 {
      WellKeyedFresh(items, n - 1, k);
      if |items[n - 1].0| == 13 {
        HasKeySnoc(WellKeyed(items, n - 1), items[n - 1], k);
      } else {
        assert WellKeyed(items, n) == WellKeyed(items, n - 1);
      }
    }
  }

  lemma {:induction false} OffPatternFresh(items: seq<(string, string)>, n: nat, k: string)
    requires n <= |items| && forall j :: 0 <= j < n ==> items[j].0 != k
    ensures !HasKey(OffPattern(items, n), k)
  {
    if n > 0 {
      OffPatternFresh(items, n - 1, k);
      if |items[n - 1].0| == 13 {
        assert OffPattern(items, n) == OffPattern(items, n - 1);
      } else {
        HasKeySnoc(OffPattern(items, n - 1), (items[n - 1].0, KeyOffPattern), k);
      }
    }
  }

  /** With distinct item keys, each off-pattern key is reported once. */
  lemma {:induction false} OffPatternDistinct(items: seq<(string, string)>, n: nat)
    requires DistinctKeys(items) && n <= |items|
    ensures DistinctKeys(OffPattern(items, n))
  {
    if n > 0 {
      OffPatternDistinct(items, n - 1);
      if |items[n - 1].0| != 13 {
        OffPatternFresh(items, n - 1, items[n - 1].0);
        SnocDistinct(OffPattern(items, n - 1), (items[n - 1].0, KeyOffPattern));
      }
    }
  }

  /** Every item is either kept or reported. */
  lemma {:induction false} WellKeyedSplit(items: seq<(string, string)>, n: nat)
    requires n <= |items|
    ensures |WellKeyed(items, n)| + |OffPattern(items, n)| == n
  {
    if n > 0 {
      WellKeyedSplit(items, n - 1);
    }
  }

  /**
   * Validating a dict whose keys the normaliser `normalize` leaves alone and
   * which match the pattern exactly when they are 13 characters long: the
   * normalised map is the 13-character items, and every other item is an
   * off-pattern error.
   */
  lemma {:induction false} ValidateSettled(items: seq<(string, string)>, n: nat, normalize: string -> string)
    requires DistinctKeys(items) && n <= |items|
    requires forall j :: 0 <= j < |items| ==> normalize(items[j].0) == items[j].0
    requires forall j :: 0 <= j < |items| ==> (Canonical(items[j].0) <==> |items[j].0| == 13)
    ensures Accepted(AsBatch(items).entries, n, normalize) == WellKeyed(items, n)
    ensures Rejected(AsBatch(items).entries, n, normalize) == OffPattern(items, n)
  {
    if n > 0 {
      ValidateSettled(items, n - 1, normalize);
      var es := AsBatch(items).entries;
      var k := items[n - 1].0;
      WellKeyedFresh(items, n - 1, k);
      assert es[n - 1] == (k, JString(items[n - 1].1));
      assert ProblemOf(es, n - 1, normalize) == if |k| == 13 then None else Some(KeyOffPattern);
      if |k| == 13 {
        assert Accepted(es, n, normalize) == WellKeyed(items, n - 1) + [items[n - 1]];
        assert Rejected(es, n, normalize) == OffPattern(items, n - 1);
      } else {
        assert Accepted(es, n, normalize) == WellKeyed(items, n - 1);
        assert Rejected(es, n, normalize) == OffPattern(items, n - 1) + [(k, KeyOffPattern)];
      }
    }
  }

  /**
   * `validate_value_map` on the dict the importer builds keeps every item
   * whose key has a four-digit year, text unchanged, and reports every other
   * item under its key as off the pattern.
   */
  lemma ValidateImported(items: seq<(string, string)>)
    requires DistinctKeys(items) && forall j :: 0 <= j < |items| ==> ImportKey(items[j].0)
    ensures ValidateSpec(AsBatch(items)) == (WellKeyed(items, |items|), OffPattern(items, |items|))
  {
    forall j | 0 <= j < |items|
      ensures NormalizeText(items[j].0) == items[j].0 && (Canonical(items[j].0) <==> |items[j].0| == 13)
    {
      ImportKeyNormal(items[j].0);
      ImportKeyCanonical(items[j].0);
    }
    ValidateSettled(items, |items|, NormalizeText);
    OffPatternDistinct(items, |items|);
    PutAllOfDistinct(OffPattern(items, |items|));
  }

  /**
   * What `process_worksheet` returns, in terms of the rows below the header:
   * the normalised map is the imported dict restricted to keys with a
   * four-digit year, the errors are the other keys, and `valid` counts the first.
   */
  lemma ProcessOutcome(ws: Sheet)
    ensures var (h, cols) := FindHeader(ws, DefaultScanRows);
      var items := PutAll(RowWrites(RowEntries(ws, cols), h, MaxRow(ws)));
      && ProcessSpec(ws).0 == WellKeyed(items, |items|)
      && ProcessSpec(ws).1.errors == OffPattern(items, |items|)
      && ProcessSpec(ws).1.valid + |ProcessSpec(ws).1.errors| == |items|
  {
    var (h, cols) := FindHeader(ws, DefaultScanRows);
    var entry := RowEntries(ws, cols);
    var w := RowWrites(entry, h, MaxRow(ws));
    ReadFromWrites(entry, h, MaxRow(ws));
    RowEntriesKeys(ws, cols);
    WritesKeys(entry, h, MaxRow(ws));
    DictKeys(w);
    PutAllDistinct(w);
    ValidateImported(PutAll(w));
    WellKeyedSplit(PutAll(w), |PutAll(w)|);
  }

  /**
   * The counters of `process_worksheet`: every row below the header is
   * imported or skipped, and `overwritten_in_lot` is the number of imported
   * rows whose key an earlier row already used, so the dict holds the rest.
   */
  lemma ProcessCounts(ws: Sheet)
    ensures var (h, cols) := FindHeader(ws, DefaultScanRows);
      var w := RowWrites(RowEntries(ws, cols), h, MaxRow(ws));
      var st := ProcessSpec(ws).1;
      && st.imported == |w| && st.overwrittenInLot == Repeats(w)
      && st.imported + st.skipped == (if MaxRow(ws) > h then MaxRow(ws) - h else 0)
      && |PutAll(w)| + st.overwrittenInLot == st.imported
  {
    var (h, cols) := FindHeader(ws, DefaultScanRows);
    var entry := RowEntries(ws, cols);
    ReadFromWrites(entry, h, MaxRow(ws));
    RowsAccounted(entry, h, MaxRow(ws));
    PutAllSize(RowWrites(entry, h, MaxRow(ws)));
  }

  /** The last row written under a key supplies its text. */
  lemma {:induction false} LaterRowWins(entry: int -> Option<(string, string)>, h: nat, hi: int, r: int)
    requires h < r <= hi && entry(r).Some?
    requires forall q :: r < q <= hi && entry(q).Some? ==> entry(q).value.0 != entry(r).value.0
    ensures LastValue(RowWrites(entry, h, hi), entry(r).value.0) == Some(entry(r).value.1)
    decreases hi - h
  {
    var w := RowWrites(entry, h, hi - 1);
    if entry(hi).Some? {
      LastValueSnoc(w, entry(hi).value, entry(r).value.0);
    }
    if r < hi {
      LaterRowWins(entry, h, hi - 1, r);
    }
  }

  /**
   * Rows filed under the same key overwrite each other: the dict holds the
   * text of the last such row.
   */
  lemma ImportLastRowWins(ws: Sheet, r: int)
    requires var (h, cols) := FindHeader(ws, DefaultScanRows);
      h < r <= MaxRow(ws) && RowEntry(ws, cols, r).Some?
      && forall q :: r < q <= MaxRow(ws) && RowEntry(ws, cols, q).Some? ==> RowEntry(ws, cols, q).value.0 != RowEntry(ws, cols, r).value.0
    ensures var (h, cols) := FindHeader(ws, DefaultScanRows);
      var items := ReadFrom(RowEntries(ws, cols), h, MaxRow(ws)).items;
      Get(items, RowEntry(ws, cols, r).value.0) == Some(RowEntry(ws, cols, r).value.1)
  {
    var (h, cols) := FindHeader(ws, DefaultScanRows);
    var entry := RowEntries(ws, cols);
    assert forall q :: entry(q) == RowEntry(ws, cols, q);
    LaterRowWins(entry, h, MaxRow(ws), r);
    ReadFromWrites(entry, h, MaxRow(ws));
    PutAllGet(RowWrites(entry, h, MaxRow(ws)), RowEntry(ws, cols, r).value.0);
  }
}
