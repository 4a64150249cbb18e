/** One row of the Tiller "Transactions" sheet, as the try block of the row loop in
    get_tiller_financial_data reads it. */
module TransactionRows {
  import opened Wrappers
  import opened Text
  import opened Clock

  /** The amount cell: an empty cell counts as 0, any other cell must be text that
      Python's float() accepts and is carried as that text. */
  datatype Amount = Blank | Figure(text: string)

  /** One transaction as the loop appends it. */
  datatype Transaction = Transaction(
    date: string,         // the date cell as written, month/day/year
    amount: Amount,
    description: string,
    account: string,
    category: string,
    on: Date,             // the parsed date
    day: int)             // its day number; the transaction's timestamp is its midnight

  /** The timestamp of a transaction: midnight of its day. */
  function Timestamp(t: Transaction): int {
    t.day * DaySeconds
  }

  predicate InRange(c: char, lo: char, hi: char) { lo <= c <= hi }

  /** The text %m matches: 1-9, 01-09 or 10-12. */
  predicate IsMonthText(s: string) {
    || (|s| == 1 && InRange(s[0], '1', '9'))
    || (|s| == 2 && s[0] == '0' && InRange(s[1], '1', '9'))
    || (|s| == 2 && s[0] == '1' && InRange(s[1], '0', '2'))
  }

  /** The text %d matches: 30-31, 10-29, 01-09, 1-9, or a blank then 1-9. */
  predicate IsDayText(s: string) {
    || (|s| == 1 && InRange(s[0], '1', '9'))
    || (|s| == 2 && s[0] == '3' && InRange(s[1], '0', '1'))
    || (|s| == 2 && InRange(s[0], '1', '2') && IsDigit(s[1]))
    || (|s| == 2 && (s[0] == '0' || s[0] == ' ') && InRange(s[1], '1', '9'))
  }

  /** The value of a %m or %d text (a leading blank or zero adds nothing). */
  function SmallNumber(s: string): int
    requires 1 <= |s| <= 2
  {
    if |s| == 1 then s[0] as int - '0' as int
    else (if s[0] == ' ' then 0 else 10 * (s[0] as int - '0' as int)) + (s[1] as int - '0' as int)
  }

  /** s is month text, day text and a four-digit year, joined by slashes. */
  predicate Spells(s: string, m: string, d: string, y: string) {
    s == m + "/" + d + "/" + y && IsMonthText(m) && IsDayText(d) && |y| == 4 && AllDigits(y)
  }

  /** The date such a spelling names. */
  function SpelledDate(m: string, d: string, y: string): Date
    requires IsMonthText(m) && IsDayText(d) && AllDigits(y)
  {
    Date(NumberValue(y), SmallNumber(m), SmallNumber(d))
  }

  /** datetime.strptime(s, '%m/%d/%Y'): month, day and a four-digit year separated by
      slashes and nothing else, naming a date that exists (year 1 or later). */
  function ParseDate(s: string): (r: Option<Date>)
    ensures r.Some? ==> ValidDate(r.value)
    ensures r.Some? ==> exists m, d, y :: Spells(s, m, d, y) && r.value == SpelledDate(m, d, y)
  {
    var i := FirstIndex(s, '/');
    if i == |s| then None
    else
      var rest := s[i + 1..];
      var j := FirstIndex(rest, '/');
      if j == |rest| then None
      else
        var m, d, y := s[..i], rest[..j], rest[j + 1..];
        if !(IsMonthText(m) && IsDayText(d) && |y| == 4 && AllDigits(y)) then None
        else
          var date := SpelledDate(m, d, y);
          if ValidDate(date) then
            assert s == m + "/" + d + "/" + y;
            assert Spells(s, m, d, y);
            Some(date)
          else None
  }

  /** Every spelling strptime accepts, padded or not: month, day and year texts joined
      by slashes read as the date they name when it exists, and are refused otherwise. */
  lemma {:induction false} ParseDateSpellings(m: string, d: string, y: string)
    requires IsMonthText(m) && IsDayText(d) && |y| == 4 && AllDigits(y)
    ensures var date := SpelledDate(m, d, y);
      ParseDate(m + "/" + d + "/" + y) == if ValidDate(date) then Some(date) else None
  {
    var s := m + "/" + d + "/" + y;
    assert '/' !in m by {
      assert forall k :: 0 <= k < |m| ==> '0' <= m[k] <= '9';
    }
    assert '/' !in d by {
      assert forall k :: 0 <= k < |d| ==> d[k] == ' ' || '0' <= d[k] <= '9';
    }
    assert s == m + ['/'] + (d + "/" + y);
    FirstIndexAfter(m, '/', d + "/" + y);
    var rest := s[|m| + 1..];
    assert rest == d + ['/'] + y;
    FirstIndexAfter(d, '/', y);
    assert s[..|m|] == m && rest[..|d|] == d && rest[|d| + 1..] == y;
  }

  /** strptime accepts exactly the spellings of existing dates: a text parses when, and
      only when, it is month, day and year texts joined by slashes naming a valid date. */
  lemma {:induction false} ParseDateExactly(s: string)
    ensures ParseDate(s).Some? <==>
      exists m, d, y :: Spells(s, m, d, y) && ValidDate(SpelledDate(m, d, y))
  {
    if exists m, d, y :: Spells(s, m, d, y) && ValidDate(SpelledDate(m, d, y)) {
      var m, d, y :| Spells(s, m, d, y) && ValidDate(SpelledDate(m, d, y));
      ParseDateSpellings(m, d, y);
    }
  }

  /** The ISO spelling year-month-day is refused: strptime with '%m/%d/%Y' wants slashes. */
  lemma {:induction false} IsoDateRefused(y: string, m: string, d: string)
    requires AllDigits(y) && AllDigits(m) && AllDigits(d)
    ensures ParseDate(y + "-" + m + "-" + d) == None
  {
    var s := y + "-" + m + "-" + d;
    forall k | 0 <= k < |s|
      ensures s[k] != '/'
    {
      if k < |y| {
        assert s[k] == y[k];
      } else if |y| + 1 <= k < |y| + 1 + |m| {
        assert s[k] == m[k - |y| - 1];
      } else if |y| + |m| + 2 <= k {
        assert s[k] == d[k - |y| - |m| - 2];
      }
    }
  }

  /** date.strftime('%m/%d/%Y'): the form the sheet writes dates in. */
  function DateText(d: Date): (r: string)
    requires ValidDate(d)
    ensures |r| == 10 && r[2] == '/' && r[5] == '/'
  {
    Pad2(d.month) + "/" + Pad2(d.day) + "/" + Pad4(d.year)
  }

  /** Every date the sheet writes reads back as itself. */
  lemma {:induction false} ParseDateRoundTrip(d: Date)
    requires ValidDate(d)
    ensures ParseDate(DateText(d)) == Some(d)
  {
    var s := DateText(d);
    var m, dd, y := Pad2(d.month), Pad2(d.day), Pad4(d.year);
    assert s == m + "/" + dd + "/" + y;
    assert s[0] == m[0] && s[1] == m[1];
    assert IsDigit(s[0]) && IsDigit(s[1]);
    assert FirstIndex(s, '/') == 2;
    var rest := s[3..];
    assert rest == dd + "/" + y;
    assert rest[0] == dd[0] && rest[1] == dd[1];
    assert IsDigit(rest[0]) && IsDigit(rest[1]);
    assert FirstIndex(rest, '/') == 2;
    assert s[..2] == m && rest[..2] == dd && rest[3..] == y;
    PadSmall(d.month);
    PadSmall(d.day);
  }

  /** A two-digit month or day from 1 to 31 is %m and %d text with its own value. */
  lemma {:induction false} PadSmall(n: nat)
    requires 1 <= n <= 31
    ensures IsDayText(Pad2(n)) && SmallNumber(Pad2(n)) == n
    ensures n <= 12 ==> IsMonthText(Pad2(n))
  {
    var p := Pad2(n);
    assert p[0] == DigitChar(n / 10) && p[1] == DigitChar(n % 10);
  }

  /** February 30th is not a date: strptime refuses it, so the row is skipped. */
  lemma {:induction false} NoThirtiethOfFebruary(year: int)
    requires 1 <= year <= 9999
    ensures ParseDate("02/30/" + Pad4(year)) == None
  {
    var y := Pad4(year);
    var s := "02/30/" + y;
    assert s[0] == '0' && s[1] == '2' && s[2] == '/';
    assert FirstIndex(s, '/') == 2;
    var rest := s[3..];
    assert rest == "30/" + y;
    assert rest[0] == '3' && rest[1] == '0' && rest[2] == '/';
    assert FirstIndex(rest, '/') == 2;
    assert s[..2] == "02" && rest[..2] == "30" && rest[3..] == Pad4(year);
  }

  /** An optional sign and at least one digit: the exponent of a float literal. */
  predicate IsExponent(x: string) {
    var digits := if x != [] && (x[0] == '+' || x[0] == '-') then x[1..] else x;
    digits != [] && AllDigits(digits)
  }

  /** Digits with at most one decimal point, and at least one digit. */
  predicate IsMantissa(m: string) {
    var p := FirstIndex(m, '.');
    AllDigits(m[..p]) && (p == |m| || AllDigits(m[p + 1..])) && |m| > (if p < |m| then 1 else 0)
  }

  /** The blanks float() strips: the ASCII space, tab, line feed, vertical tab, form feed
      and carriage return, and every non-ASCII character str.isspace() accepts (float()
      turns those into spaces first). The separators U+001C to U+001F are not among them,
      although str.isspace() accepts them. */
  predicate FloatBlank(c: char) {
    IsSpace(c) && !('\U{001C}' <= c <= '\U{001F}')
  }

  /** The text float() accepts: blanks around a float literal. */
  predicate IsFloatText(cell: string) {
    IsFloatLiteral(Strip(cell, FloatBlank))
  }

  /** An optionally signed decimal literal with an optional exponent, or inf, infinity
      or nan in any letter case. */
  predicate IsFloatLiteral(t: string) {
    var u := if t != [] && (t[0] == '+' || t[0] == '-') then t[1..] else t;
    var e := FirstIndex(Lower(u), 'e');
    || Lower(u) in {"inf", "infinity", "nan"}
    || (IsMantissa(u[..e]) && (e == |u| || IsExponent(u[e + 1..])))
  }

  /** `float(row[2]) if row[2] else 0` */
  function ParseAmount(cell: string): (r: Option<Amount>)
    ensures r.Some? <==> cell == [] || IsFloatText(cell)
  {
    if cell == [] then Some(Blank)
    else if IsFloatText(cell) then Some(Figure(cell))
    else None
  }

  /** A cell led by one of the separators U+001C to U+001F is refused, although
      str.strip() would remove the separator. */
  lemma {:induction false} SeparatorNotStripped(cell: string)
    requires cell != [] && '\U{001C}' <= cell[0] <= '\U{001F}'
    ensures ParseAmount(cell) == None
  {
    var t := Strip(cell, FloatBlank);
    var lo, hi := StripSlice(cell, FloatBlank);
    assert lo == 0;
    StripKeeps(cell, FloatBlank, cell[0]);
    SeparatorLiteral(t);
  }

  /** No float literal starts with a separator. */
  lemma {:induction false} SeparatorLiteral(t: string)
    requires t != [] && '\U{001C}' <= t[0] <= '\U{001F}'
    ensures !IsFloatLiteral(t)
  {
    var e := FirstIndex(Lower(t), 'e');
    assert Lower(t)[0] == t[0];
    assert Lower(t) !in {"inf", "infinity", "nan"} by {
      assert "inf"[0] != t[0] && "infinity"[0] != t[0] && "nan"[0] != t[0];
    }
    var mantissa := t[..e];
    assert mantissa[0] == t[0];
    assert !AllDigits(mantissa[..FirstIndex(mantissa, '.')]);
  }

  /** Blanks float() strips around a literal that neither starts nor ends with one do not
      change whether the cell is accepted. */
  lemma {:induction false} PaddedFigure(front: string, literal: string, back: string)
    requires forall i :: 0 <= i < |front| ==> FloatBlank(front[i])
    requires forall i :: 0 <= i < |back| ==> FloatBlank(back[i])
    requires literal != [] && !FloatBlank(literal[0]) && !FloatBlank(literal[|literal| - 1])
    ensures ParseAmount(front + literal + back).Some? <==> IsFloatLiteral(literal)
  {
    StripPadded(front, literal, back, FloatBlank);
  }

  /** The transaction a row yields; None when it has fewer than six cells or its date or
      amount does not parse (the loop's `continue`). */
  function ParseRow(row: seq<string>): (r: Option<Transaction>)
    ensures r.Some? <==> |row| >= 6 && ParseDate(row[0]).Some? && ParseAmount(row[2]).Some?
    ensures r.Some? ==>
      && ValidDate(r.value.on) && r.value.day == DayNumber(r.value.on)
      && r.value.date == row[0] && r.value.description == row[1]
      && r.value.account == row[3] && r.value.category == row[4]
      && r.value.on == ParseDate(row[0]).value && r.value.amount == ParseAmount(row[2]).value
  {
    if |row| < 6 then None
    else
      match ParseAmount(row[2])
      case None => None
      case Some(amount) =>
        match ParseDate(row[0])
        case None => None
        case Some(on) => Some(Transaction(row[0], amount, row[1], row[3], row[4], on, DayNumber(on)))
  }
}
