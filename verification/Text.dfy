/** The pieces of the C++ text library the program relies on: `std::getline`, `operator>>`
    on strings, `std::to_string` and `std::stoi`.

    A stream that is being read is modelled by the text that is still unread. A C++ exception
    is modelled by `None`. */
module Text {

  datatype Option<+T> = None | Some(value: T)

  const INT_MAX := 0x7FFF_FFFF
  const INT_MIN := -0x8000_0000

  // ---------- std::getline ----------

  /** The first position of `c` in `s`, or the length of `s`. */
  function IndexOf(s: string, c: char): (i: nat)
    ensures i <= |s|
    ensures c !in s[..i]
    ensures i < |s| ==> s[i] == c
  {
    if s == [] || s[0] == c then 0 else 1 + IndexOf(s[1..], c)
  }

  lemma IndexOfUnique(s: string, c: char, i: nat)
    requires i <= |s| && c !in s[..i] && (i < |s| ==> s[i] == c)
    ensures IndexOf(s, c) == i
  {
    assert forall k :: 0 <= k < i ==> s[k] == s[..i][k];
    var j := IndexOf(s, c);
    assert forall k :: 0 <= k < j ==> s[k] == s[..j][k];
  }

  /** What `std::getline(stream, line, delim)` stores when `unread` is not empty; the call
      fails exactly when `unread` is empty. */
  function Line(unread: string, delim: char): (line: string)
    ensures delim !in line
    ensures line <= unread
  {
    unread[..IndexOf(unread, delim)]
  }

  /** What `std::getline` leaves unread: the delimiter is consumed, and a last line needs none. */
  function Rest(unread: string, delim: char): (rest: string)
    ensures unread != "" ==> |rest| < |unread|
    ensures unread == Line(unread, delim) + rest || unread == Line(unread, delim) + [delim] + rest
  {
    var i := IndexOf(unread, delim);
    if i < |unread| then unread[i + 1..] else ""
  }

  lemma GetLineDelimited(line: string, delim: char, rest: string)
    requires delim !in line
    ensures Line(line + [delim] + rest, delim) == line
    ensures Rest(line + [delim] + rest, delim) == rest
  {
    var s := line + [delim] + rest;
    assert s[..|line|] == line;
    IndexOfUnique(s, delim, |line|);
    assert s[|line| + 1..] == rest;
  }

  lemma GetLineLast(line: string, delim: char)
    requires delim !in line
    ensures Line(line, delim) == line && Rest(line, delim) == ""
  {
    assert line[..|line|] == line;
    IndexOfUnique(line, delim, |line|);
  }

  /** Every line `std::getline` delivers, in order, until it fails. */
  function Pieces(s: string, delim: char): (ps: seq<string>)
    ensures forall p :: p in ps ==> delim !in p
    ensures ps == [] <==> s == ""
    decreases |s|
  {
    if s == "" then [] else [Line(s, delim)] + Pieces(Rest(s, delim), delim)
  }

  lemma PiecesDelimited(line: string, delim: char, rest: string)
    requires delim !in line
    ensures Pieces(line + [delim] + rest, delim) == [line] + Pieces(rest, delim)
  {
    GetLineDelimited(line, delim, rest);
  }

  lemma PiecesLast(line: string, delim: char)
    requires delim !in line && line != ""
    ensures Pieces(line, delim) == [line]
  {
    GetLineLast(line, delim);
  }

  /** The texts of `ps` with one `delim` between neighbours. */
  function Join(ps: seq<string>, delim: char): string {
    if ps == [] then ""
    else if |ps| == 1 then ps[0]
    else ps[0] + [delim] + Join(ps[1..], delim)
  }

  /** Reading lines undoes joining them, unless the last line is empty (the list may be). */
  lemma {:induction false} PiecesOfJoin(ps: seq<string>, delim: char)
    requires forall p :: p in ps ==> delim !in p
    requires ps != [] ==> ps[|ps| - 1] != ""
    ensures Pieces(Join(ps, delim), delim) == ps
  {
    if |ps| == 1 {
      PiecesLast(ps[0], delim);
    } else if |ps| > 1 {
      PiecesDelimited(ps[0], delim, Join(ps[1..], delim));
      PiecesOfJoin(ps[1..], delim);
    }
  }

  // ---------- white space and operator>> ----------

  /** The characters `isspace` accepts in the C locale. */
  predicate IsSpace(c: char) {
    c == ' ' || c == '\t' || c == '\n' || c == '\r' || c as int == 11 || c as int == 12
  }

  predicate SpaceFree(s: string) {
    forall i :: 0 <= i < |s| ==> !IsSpace(s[i])
  }

  function SkipSpace(s: string): (r: string)
    ensures |r| <= |s|
    ensures r == s[|s| - |r|..]
    ensures r != "" ==> !IsSpace(r[0])
  {
    if s != "" && IsSpace(s[0]) then SkipSpace(s[1..]) else s
  }

  /** The length of the longest space-free prefix. */
  function TokenLength(s: string): (n: nat)
    ensures n <= |s|
    ensures SpaceFree(s[..n])
    ensures n < |s| ==> IsSpace(s[n])
  {
    if s == "" || IsSpace(s[0]) then 0 else 1 + TokenLength(s[1..])
  }

  /** What `stream >> token` stores: the empty text when only white space is left. */
  function Token(unread: string): (t: string)
    ensures SpaceFree(t)
  {
    var s := SkipSpace(unread);
    s[..TokenLength(s)]
  }

  function AfterToken(unread: string): (r: string) {
    var s := SkipSpace(unread);
    s[TokenLength(s)..]
  }

  lemma TokenLengthUnique(s: string, n: nat)
    requires n <= |s| && SpaceFree(s[..n]) && (n < |s| ==> IsSpace(s[n]))
    ensures TokenLength(s) == n
  {
    assert forall k :: 0 <= k < n ==> s[k] == s[..n][k];
    var m := TokenLength(s);
    assert forall k :: 0 <= k < m ==> s[k] == s[..m][k];
  }

  /** A space-free text in front of white space, or of nothing, is the next token; one blank
      before it makes no difference. */
  lemma TokenAt(t: string, rest: string)
    requires t != "" && SpaceFree(t) && (rest != "" ==> IsSpace(rest[0]))
    ensures Token(t + rest) == t && AfterToken(t + rest) == rest
    ensures Token(" " + t + rest) == t && AfterToken(" " + t + rest) == rest
  {
    var s := t + rest;
    assert s[0] == t[0];
    assert s[..|t|] == t && s[|t|..] == rest;
    TokenLengthUnique(s, |t|);
    var s1 := " " + t + rest;
    assert s1[1..] == s;
    assert SkipSpace(s1) == SkipSpace(s);
  }

  // ---------- std::to_string ----------

  predicate IsDigit(c: char) {
    '0' <= c <= '9'
  }

  predicate AllDigits(s: string) {
    forall i :: 0 <= i < |s| ==> IsDigit(s[i])
  }

  function DigitChar(d: nat): (c: char)
    requires d < 10
    ensures IsDigit(c) && DigitValue(c) == d
  {
    ('0' as int + d) as char
  }

  function DigitValue(c: char): (d: nat)
    requires IsDigit(c)
    ensures d < 10
  {
    c as int - '0' as int
  }

  /** `std::to_string` of an unsigned number. */
  function Decimal(n: nat): (s: string)
    ensures s != "" && AllDigits(s)
    ensures s[0] == '0' ==> s == "0"
  {
    if n < 10 then [DigitChar(n)] else Decimal(n / 10) + [DigitChar(n % 10)]
  }

  /** `std::to_string` of a signed number. */
  function IntText(n: int): (s: string) {
    if n < 0 then "-" + Decimal(-n) else Decimal(n)
  }

  // ---------- std::stoi ----------

  /** The number written by a text of decimal digits. */
  function DigitsValue(s: string): (n: nat)
    requires AllDigits(s)
  {
    if s == "" then 0 else 10 * DigitsValue(s[..|s| - 1]) + DigitValue(s[|s| - 1])
  }

  lemma {:induction false} DigitsValueOfDecimal(n: nat)
    ensures DigitsValue(Decimal(n)) == n
  {
    if n >= 10 {
      DigitsValueOfDecimal(n / 10);
      assert Decimal(n)[..|Decimal(n)| - 1] == Decimal(n / 10);
    }
  }

  lemma DecimalAppend(n: nat, d: nat)
    requires n > 0 && d < 10
    ensures Decimal(10 * n + d) == Decimal(n) + [DigitChar(d)]
  {
    assert (10 * n + d) / 10 == n && (10 * n + d) % 10 == d;
  }

  lemma OneDigit(s: string)
    requires |s| == 1 && AllDigits(s)
    ensures DigitsValue(s) == DigitValue(s[0]) && Decimal(DigitsValue(s)) == s
  {
    assert s[..0] == "" && DigitsValue("") == 0;
    assert s == [DigitChar(DigitValue(s[0]))];
  }

  lemma DecimalOfZero()
    ensures Decimal(0) == "0"
  {
  }

  lemma {:induction false} DecimalOfDigitsValue(s: string)
    requires AllDigits(s) && s != "" && (s[0] == '0' ==> s == "0")
    ensures Decimal(DigitsValue(s)) == s
  {
    hide Decimal;
    if |s| == 1 {
      OneDigit(s);
    } else {
      var front, last := s[..|s| - 1], s[|s| - 1];
      DecimalOfDigitsValue(front);
      assert front[0] == s[0] != '0';
      DecimalOfZero();
      DecimalAppend(DigitsValue(front), DigitValue(last));
      assert s == front + [last];
    }
  }

  /** The length of the longest prefix of digits. */
  function DigitRun(s: string): (n: nat)
    ensures n <= |s|
    ensures AllDigits(s[..n])
    ensures n < |s| ==> !IsDigit(s[n])
  {
    if s == "" || !IsDigit(s[0]) then 0 else 1 + DigitRun(s[1..])
  }

  /** `std::stoi`: white space, an optional sign, digits, and anything after them. `None` stands
      for the two exceptions: no digit at all, or a value outside the range of `int`. */
  function Stoi(s: string): (r: Option<int>)
    ensures r.Some? ==> INT_MIN <= r.value <= INT_MAX
  {
    var t := SkipSpace(s);
    var negative := t != "" && t[0] == '-';
    var u := if t != "" && (t[0] == '-' || t[0] == '+') then t[1..] else t;
    var digits := u[..DigitRun(u)];
    if digits == "" then None
    else
      var v := if negative then 0 - DigitsValue(digits) else DigitsValue(digits);
      if INT_MIN <= v <= INT_MAX then Some(v) else None
  }

  lemma DigitRunAll(s: string)
    requires AllDigits(s)
    ensures DigitRun(s) == |s| && s[..|s|] == s
  {
  }

  lemma StoiOfDigits(s: string)
    requires AllDigits(s) && s != ""
    ensures Stoi(s) == if DigitsValue(s) <= INT_MAX then Some(DigitsValue(s)) else None
  {
    var c := s[0];
    assert IsDigit(c) && !IsSpace(c) && c != '-' && c != '+';
    assert SkipSpace(s) == s;
    DigitRunAll(s);
  }

  lemma StoiOfNegated(digits: string)
    requires AllDigits(digits) && digits != ""
    ensures Stoi("-" + digits) == if DigitsValue(digits) <= -INT_MIN then Some(0 - DigitsValue(digits)) else None
  {
    hide DigitsValue, DigitRun, SkipSpace;
    var t := "-" + digits;
    assert t[1..] == digits;
    SignIsNoSpace(digits);
    DigitRunAll(digits);
  }

  lemma SignIsNoSpace(digits: string)
    ensures SkipSpace("-" + digits) == "-" + digits
  {
  }

  /** Reading a printed `int` gives it back. */
  lemma StoiOfIntText(n: int)
    requires INT_MIN <= n <= INT_MAX
    ensures Stoi(IntText(n)) == Some(n)
  {
    hide Stoi, DigitsValue, Decimal;
    if n >= 0 {
      DigitsValueOfDecimal(n);
      StoiOfDigits(Decimal(n));
    } else {
      DigitsValueOfDecimal(-n);
      StoiOfNegated(Decimal(-n));
    }
  }
}
