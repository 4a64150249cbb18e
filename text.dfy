/** The handful of Python string operations the dashboard backend relies on:
    str.strip, str.split('=', 1), str.replace, str.lower, the `in` substring test,
    and the decimal and thousands-grouped renderings of integers. */
module Text {

  /** The characters Python's str.isspace() accepts, which str.strip() removes. */
  predicate IsSpace(c: char) {
    || c == ' ' || '\t' <= c <= '\r' || '\U{001C}' <= c <= '\U{001F}'
    || c == '\U{0085}' || c == '\U{00A0}' || c == '\U{1680}' || '\U{2000}' <= c <= '\U{200A}'
    || c == '\U{2028}' || c == '\U{2029}' || c == '\U{202F}' || c == '\U{205F}' || c == '\U{3000}'
  }

  /** s without its leading characters to drop. */
  function TrimLeft(s: string, drop: char -> bool): (r: string)
    ensures |r| <= |s| && r == s[|s| - |r|..]
    ensures r == [] || !drop(r[0])
  {
    if s != [] && drop(s[0]) then TrimLeft(s[1..], drop) else s
  }

  /** TrimLeft removes only characters to drop. */
  lemma {:induction false} TrimLeftDrops(s: string, drop: char -> bool)
    ensures forall i :: 0 <= i < |s| - |TrimLeft(s, drop)| ==> drop(s[i])
  {
    if s != [] && drop(s[0]) {
      TrimLeftDrops(s[1..], drop);
      forall i | 1 <= i < |s| - |TrimLeft(s, drop)|
        ensures drop(s[i])
      {
        assert s[i] == s[1..][i - 1];
      }
    }
  }

  /** s without its trailing characters to drop. */
  function TrimRight(s: string, drop: char -> bool): (r: string)
    ensures |r| <= |s| && r == s[..|r|]
    ensures r == [] || !drop(r[|r| - 1])
  {
    if s != [] && drop(s[|s| - 1]) then TrimRight(s[..|s| - 1], drop) else s
  }

  /** TrimRight removes only characters to drop. */
  lemma {:induction false} TrimRightDrops(s: string, drop: char -> bool)
    ensures forall i :: |TrimRight(s, drop)| <= i < |s| ==> drop(s[i])
  {
    if s != [] && drop(s[|s| - 1]) {
      TrimRightDrops(s[..|s| - 1], drop);
      forall i | |TrimRight(s, drop)| <= i < |s| - 1
        ensures drop(s[i])
      {
        assert s[i] == s[..|s| - 1][i];
      }
    }
  }

  /** Python's s.strip(chars): the longest middle slice of s that neither starts nor ends
      with a character to drop. */
  function Strip(s: string, drop: char -> bool): (r: string)
    ensures |r| <= |s|
  {
    TrimRight(TrimLeft(s, drop), drop)
  }

  /** What Strip leaves neither starts nor ends with a character to drop. */
  lemma StripEnds(s: string, drop: char -> bool)
    ensures var r := Strip(s, drop); r == [] || (!drop(r[0]) && !drop(r[|r| - 1]))
  {
    var l := TrimLeft(s, drop);
    var r := TrimRight(l, drop);
    if r != [] {
      assert r[0] == l[0];
    }
  }

  /** Strip removes exactly the characters to drop at both ends, so it keeps a contiguous
      slice of s, and any character it may not drop survives it. */
  lemma {:induction false} StripSlice(s: string, drop: char -> bool) returns (lo: nat, hi: nat)
    ensures lo <= hi <= |s| && Strip(s, drop) == s[lo..hi]
    ensures forall i :: 0 <= i < lo ==> drop(s[i])
    ensures forall i :: hi <= i < |s| ==> drop(s[i])
  {
    var l := TrimLeft(s, drop);
    lo := |s| - |l|;
    hi := lo + |Strip(s, drop)|;
    StripIsSlice(s, drop);
    assert l == s[lo..];
    assert Strip(s, drop) == s[lo..hi] by {
      assert s[lo..][..hi - lo] == s[lo..hi];
    }
    forall i | 0 <= i < lo
      ensures drop(s[i])
    {
      TrimLeftDrops(s, drop);
    }
    forall i | hi <= i < |s|
      ensures drop(s[i])
    {
      TrimRightDrops(l, drop);
      assert s[i] == l[i - lo];
    }
  }

  /** Strip keeps a prefix of what TrimLeft leaves. */
  lemma {:induction false} StripIsSlice(s: string, drop: char -> bool)
    ensures Strip(s, drop) == TrimLeft(s, drop)[..|Strip(s, drop)|]
  {
    var l := TrimLeft(s, drop);
    assert Strip(s, drop) == TrimRight(l, drop);
  }

  /** A character that Strip may not remove stays in the string. */
  lemma {:induction false} StripKeeps(s: string, drop: char -> bool, c: char)
    requires c in s && !drop(c)
    ensures c in Strip(s, drop)
  {
    var lo, hi := StripSlice(s, drop);
    var i :| 0 <= i < |s| && s[i] == c;
    assert Strip(s, drop)[i - lo] == c;
  }

  /** Characters to drop in front of a string that does not start with one are all
      TrimLeft removes. */
  lemma {:induction false} TrimLeftPadded(front: string, rest: string, drop: char -> bool)
    requires forall i :: 0 <= i < |front| ==> drop(front[i])
    requires rest == [] || !drop(rest[0])
    ensures TrimLeft(front + rest, drop) == rest
  {
    if front != [] {
      assert (front + rest)[1..] == front[1..] + rest;
      TrimLeftPadded(front[1..], rest, drop);
    } else {
      assert front + rest == rest;
    }
  }

  /** Characters to drop behind a string that does not end with one are all TrimRight
      removes. */
  lemma {:induction false} TrimRightPadded(rest: string, back: string, drop: char -> bool)
    requires forall i :: 0 <= i < |back| ==> drop(back[i])
    requires rest == [] || !drop(rest[|rest| - 1])
    ensures TrimRight(rest + back, drop) == rest
  {
    if back != [] {
      var n := |back| - 1;
      assert (rest + back)[..|rest| + n] == rest + back[..n];
      TrimRightPadded(rest, back[..n], drop);
    } else {
      assert rest + back == rest;
    }
  }

  /** Strip removes exactly the padding around a core that neither starts nor ends with a
      character to drop. */
  lemma {:induction false} StripPadded(front: string, core: string, back: string, drop: char -> bool)
    requires forall i :: 0 <= i < |front| ==> drop(front[i])
    requires forall i :: 0 <= i < |back| ==> drop(back[i])
    requires core != [] && !drop(core[0]) && !drop(core[|core| - 1])
    ensures Strip(front + core + back, drop) == core
  {
    assert front + core + back == front + (core + back);
    TrimLeftPadded(front, core + back, drop);
    TrimRightPadded(core, back, drop);
  }

  /** The index of the first c in s, or |s| when s has none. */
  function FirstIndex(s: string, c: char): (i: nat)
    ensures i <= |s|
    ensures i < |s| ==> s[i] == c
    ensures forall j :: 0 <= j < i ==> s[j] != c
  {
    if s == [] then 0 else if s[0] == c then 0 else 1 + FirstIndex(s[1..], c)
  }

  /** A string that neither starts nor ends with a character to drop is its own Strip. */
  lemma StripNothing(s: string, drop: char -> bool)
    requires s == [] || (!drop(s[0]) && !drop(s[|s| - 1]))
    ensures Strip(s, drop) == s
  {
  }

  /** The first c of `front + [c] + back` is the one after front when front has none. */
  lemma {:induction false} FirstIndexAfter(front: string, c: char, back: string)
    requires c !in front
    ensures FirstIndex(front + [c] + back, c) == |front|
  {
    if front != [] {
      assert (front + [c] + back)[1..] == front[1..] + [c] + back;
      FirstIndexAfter(front[1..], c, back);
    }
  }

  /** pat occurs in s starting at position i. */
  predicate OccursAt(pat: string, s: string, i: int) {
    0 <= i <= |s| && pat <= s[i..]
  }

  /** pat occurs in s as a contiguous piece: Python's `pat in s`. */
  predicate Occurs(pat: string, s: string) {
    exists i | 0 <= i <= |s| :: OccursAt(pat, s, i)
  }

  lemma OccursInMiddle(a: string, pat: string, b: string)
    ensures Occurs(pat, a + pat + b)
  {
    assert (a + pat + b)[|a|..] == pat + b;
    assert OccursAt(pat, a + pat + b, |a|);
  }

  /** Python's s.replace(pat, ''): delete the non-overlapping occurrences of pat,
      scanning from the left. */
  function RemoveAll(s: string, pat: string): (r: string)
    requires pat != []
    ensures |r| <= |s|
    decreases |s|
  {
    if s == [] then []
    else if pat <= s then RemoveAll(s[|pat|..], pat)
    else [s[0]] + RemoveAll(s[1..], pat)
  }

  /** Deleting a piece that does not occur changes nothing. */
  lemma {:induction false} RemoveAbsent(s: string, pat: string)
    requires pat != [] && pat[0] !in s
    ensures RemoveAll(s, pat) == s
  {
    if s != [] {
      assert s[0] != pat[0];
      RemoveAbsent(s[1..], pat);
    }
  }

  /** Python's str.lower() on one character (ASCII letters only). */
  function LowerChar(c: char): char {
    if 'A' <= c <= 'Z' then (c as int - 'A' as int + 'a' as int) as char else c
  }

  function Lower(s: string): (r: string)
    ensures |r| == |s|
    ensures forall i :: 0 <= i < |s| ==> r[i] == LowerChar(s[i])
  {
    seq(|s|, i requires 0 <= i < |s| => LowerChar(s[i]))
  }

  lemma LowerAppend(a: string, b: string)
    ensures Lower(a + b) == Lower(a) + Lower(b)
  {
    assert forall i :: 0 <= i < |a| ==> (a + b)[i] == a[i];
    assert forall i :: |a| <= i < |a| + |b| ==> (a + b)[i] == b[i - |a|];
  }

  /** Lower-casing twice is lower-casing once. */
  lemma LowerIdempotent(s: string)
    ensures Lower(Lower(s)) == Lower(s)
  {
  }

  function DigitChar(d: int): char
    requires 0 <= d < 10
  {
    ('0' as int + d) as char
  }

  predicate IsDigit(c: char) { '0' <= c <= '9' }

  function DigitValue(c: char): int
    requires IsDigit(c)
  {
    c as int - '0' as int
  }

  predicate AllDigits(s: string) { forall i :: 0 <= i < |s| ==> IsDigit(s[i]) }

  /** The value of a string of decimal digits. */
  function NumberValue(s: string): (n: nat)
    requires AllDigits(s)
  {
    if s == [] then 0 else 10 * NumberValue(s[..|s| - 1]) + DigitValue(s[|s| - 1])
  }

  /** Python's str(n) for a natural number. */
  function Decimal(n: nat): (r: string)
    ensures r != [] && AllDigits(r)
  {
    if n < 10 then [DigitChar(n)] else Decimal(n / 10) + [DigitChar(n % 10)]
  }

  /** Reading back the digits of n gives n. */
  lemma {:induction false} DecimalRoundTrip(n: nat)
    ensures NumberValue(Decimal(n)) == n
  {
    if n >= 10 {
      DecimalRoundTrip(n / 10);
      var s := Decimal(n);
      assert s[..|s| - 1] == Decimal(n / 10);
    }
  }

  /** n % 1000 written with exactly three digits, as inside a grouped number. */
  function Pad3(n: nat): (r: string)
    requires n < 1000
  {
    [DigitChar(n / 100), DigitChar(n / 10 % 10), DigitChar(n % 10)]
  }

  /** Python's format(n, ','): the decimal digits of n in groups of three
      separated by commas. */
  function Grouped(n: nat): (r: string)
    ensures r != []
  {
    if n < 1000 then Decimal(n) else Grouped(n / 1000) + "," + Pad3(n % 1000)
  }

  function GroupedInt(n: int): string {
    if n < 0 then "-" + Grouped(-n) else Grouped(n)
  }

  /** s with its commas taken out. */
  function DropCommas(s: string): (r: string) {
    if s == [] then [] else (if s[0] == ',' then [] else [s[0]]) + DropCommas(s[1..])
  }

  lemma {:induction false} DropCommasAppend(a: string, b: string)
    ensures DropCommas(a + b) == DropCommas(a) + DropCommas(b)
  {
    if a == [] {
      assert a + b == b;
    } else {
      assert (a + b)[0] == a[0];
      assert (a + b)[1..] == a[1..] + b;
      DropCommasAppend(a[1..], b);
    }
  }

  lemma DropCommasDigits(s: string)
    requires AllDigits(s)
    ensures DropCommas(s) == s
  {
  }

  /** Three more digits at the end of a number of at least one digit. */
  lemma {:induction false} DecimalThreeMore(q: nat, r: nat)
    requires 1 <= q && r < 1000
    ensures Decimal(q * 1000 + r) == Decimal(q) + Pad3(r)
  {
    var n := q * 1000 + r;
    assert n / 10 == q * 100 + r / 10;
    assert n / 10 / 10 == q * 10 + r / 100;
    assert n / 10 / 10 / 10 == q;
    assert n % 10 == r % 10;
    assert n / 10 % 10 == r / 10 % 10;
    assert n / 10 / 10 % 10 == r / 100;
    assert Decimal(n) == Decimal(n / 10) + [DigitChar(n % 10)];
    assert Decimal(n / 10) == Decimal(n / 10 / 10) + [DigitChar(n / 10 % 10)];
    assert Decimal(n / 10 / 10) == Decimal(q) + [DigitChar(n / 10 / 10 % 10)];
  }

  /** Grouping only inserts commas: removing them gives back the plain decimal digits. */
  lemma {:induction false} GroupedDigits(n: nat)
    ensures DropCommas(Grouped(n)) == Decimal(n)
  {
    if n < 1000 {
      DropCommasDigits(Decimal(n));
    } else {
      GroupedDigits(n / 1000);
      DropCommasAppend(Grouped(n / 1000) + ",", Pad3(n % 1000));
      DropCommasAppend(Grouped(n / 1000), ",");
      DropCommasDigits(Pad3(n % 1000));
      DecimalThreeMore(n / 1000, n % 1000);
    }
  }

  /** A number below a thousand has at most three digits. */
  lemma {:induction false} DecimalShort(n: nat)
    requires n < 1000
    ensures |Decimal(n)| <= 3
  {
    if n >= 10 {
      assert |Decimal(n)| == |Decimal(n / 10)| + 1;
      if n / 10 >= 10 {
        assert |Decimal(n / 10)| == |Decimal(n / 100)| + 1;
      }
    }
  }

  /** The commas of a grouped number sit exactly at every fourth place counted from the
      right end, never first: the digits fall in groups of three from the right, with
      one to three digits in front. */
  lemma {:induction false} GroupedCommas(n: nat)
    ensures forall i :: 0 <= i < |Grouped(n)| ==>
      (Grouped(n)[i] == ',' <==> i > 0 && (|Grouped(n)| - i) % 4 == 0)
  {
    var g := Grouped(n);
    if n < 1000 {
      DecimalShort(n);
      forall i | 0 <= i < |g|
        ensures g[i] != ','
      {
        assert IsDigit(g[i]);
      }
    } else {
      var front, tail := Grouped(n / 1000), Pad3(n % 1000);
      GroupedCommas(n / 1000);
      assert g == front + [','] + tail;
      assert |g| == |front| + 4;
      forall i | 0 <= i < |g|
        ensures g[i] == ',' <==> i > 0 && (|g| - i) % 4 == 0
      {
        if i < |front| {
          assert g[i] == front[i];
          assert (|g| - i) % 4 == (|front| - i) % 4;
        } else if i > |front| {
          assert g[i] == tail[i - |front| - 1];
        }
      }
    }
  }

  /** n written with two digits, as %I and %M do. */
  function Pad2(n: nat): (r: string)
    requires n < 100
    ensures |r| == 2 && AllDigits(r) && NumberValue(r) == n
  {
    var r := [DigitChar(n / 10), DigitChar(n % 10)];
    assert r[..1][..0] == [];
    assert NumberValue(r[..1]) == n / 10;
    r
  }

  /** Two more digits at the end multiply the value of the front by a hundred. */
  lemma {:induction false} NumberValueTwoMore(a: string, b: string)
    requires AllDigits(a) && AllDigits(b) && |b| == 2
    ensures AllDigits(a + b) && NumberValue(a + b) == 100 * NumberValue(a) + NumberValue(b)
  {
    var s := a + b;
    var s1 := a + b[..1];
    assert s[..|s| - 1] == s1;
    assert s1[..|s1| - 1] == a;
    assert s[|s| - 1] == b[1] && s1[|s1| - 1] == b[0];
    assert NumberValue(s) == 10 * NumberValue(s1) + DigitValue(b[1]);
    assert NumberValue(s1) == 10 * NumberValue(a) + DigitValue(b[0]);
    assert b[..1][..0] == [];
    assert NumberValue(b[..1]) == DigitValue(b[0]);
    assert b[..|b| - 1] == b[..1];
  }

  /** n written with four digits, as %Y does for the years 1 to 9999. */
  function Pad4(n: nat): (r: string)
    requires n < 10000
    ensures |r| == 4 && AllDigits(r) && NumberValue(r) == n
  {
    NumberValueTwoMore(Pad2(n / 100), Pad2(n % 100));
    Pad2(n / 100) + Pad2(n % 100)
  }
}
