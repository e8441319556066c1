/** The string operations the scripts take from Python: decimal formatting
    (`f"{n}"`, `f"{n:02d}"`), `int()`, `str.join`, `str.split`, `str.upper`,
    `str.replace(pat, "")` and the `in` substring test. */
module Text {
  import opened Wrappers

  predicate IsDigit(c: char) {
    '0' <= c <= '9'
  }

  predicate AllDigits(s: string) {
    forall i :: 0 <= i < |s| ==> IsDigit(s[i])
  }

  function DigitChar(d: nat): (c: char)
    requires d < 10
    ensures IsDigit(c)
  {
    ('0' as int + d) as char
  }

  function DigitValue(c: char): (d: nat)
    requires IsDigit(c)
    ensures d < 10 && DigitChar(d) == c
  {
    c as int - '0' as int
  }

  /** The number a string of decimal digits denotes. */
  function DigitsValue(s: string): nat
    requires AllDigits(s)
  {
    if s == [] then 0 else DigitsValue(s[..|s| - 1]) * 10 + DigitValue(s[|s| - 1])
  }

  /** Python's `f"{n}"` for a non-negative integer: decimal digits, no
      leading zero. */
  function NatToString(n: nat): (s: string)
    ensures 1 <= |s| && AllDigits(s) && DigitsValue(s) == n
    ensures n > 0 ==> s[0] != '0'
    ensures n < 10 <==> |s| == 1
    ensures 10 <= n < 100 ==> |s| == 2
  {
    if n < 10 then [DigitChar(n)] else NatToString(n / 10) + [DigitChar(n % 10)]
  }

  /** A digit string without a superfluous leading zero is what `f"{n}"`
      prints for the number it denotes: decimal notation is canonical. */
  lemma {:induction false} CanonicalDigits(s: string)
    requires 1 <= |s| && AllDigits(s) && (s[0] != '0' || |s| == 1)
    ensures NatToString(DigitsValue(s)) == s
  {
    var init, last := s[..|s| - 1], s[|s| - 1];
    if |s| == 1 {
      assert DigitsValue(s) == DigitValue(last);
    } else {
      assert init[0] == s[0];
      CanonicalDigits(init);
      LeadingDigitPositive(init);
      var v := DigitsValue(s);
      assert v == DigitsValue(init) * 10 + DigitValue(last);
      assert v / 10 == DigitsValue(init) && v % 10 == DigitValue(last);
      assert s == init + [last];
    }
  }

  lemma {:induction false} LeadingDigitPositive(s: string)
    requires 1 <= |s| && AllDigits(s) && s[0] != '0'
    ensures DigitsValue(s) >= 1
  {
    if |s| > 1 {
      assert s[..|s| - 1][0] == s[0];
      LeadingDigitPositive(s[..|s| - 1]);
    }
  }

  /** Python's `f"{i}"` for any integer. */
  function IntToString(i: int): (s: string)
    ensures 1 <= |s|
    ensures i >= 0 ==> s == NatToString(i)
    ensures i < 0 ==> s == "-" + NatToString(-i)
  {
    if i < 0 then "-" + NatToString(-i) else NatToString(i)
  }

  /** Python's `f"{n:02d}"` for a value below one hundred: exactly two
      digits, zero-padded. */
  function Pad2(n: nat): (s: string)
    requires n < 100
    ensures |s| == 2 && AllDigits(s) && DigitsValue(s) == n
  {
    var s := [DigitChar(n / 10), DigitChar(n % 10)];
    assert s[..1] == [s[0]] && s[..1][..0] == [];
    assert DigitsValue(s[..1]) == n / 10;
    s
  }

  lemma {:induction false} Pad2Inverse(s: string)
    requires |s| == 2 && AllDigits(s)
    ensures DigitsValue(s) < 100 && Pad2(DigitsValue(s)) == s
  {
    assert s[..1] == [s[0]] && s[..1][..0] == [];
    assert DigitsValue(s[..1]) == DigitValue(s[0]);
    var v := DigitsValue(s);
    assert v == DigitValue(s[0]) * 10 + DigitValue(s[1]);
    assert v / 10 == DigitValue(s[0]) && v % 10 == DigitValue(s[1]);
  }

  /** Python's `int(s)` on an optionally signed run of decimal digits; any
      other text raises, modelled as `None`. */
  function ParseInt(s: string): (r: Option<int>)
    ensures AllDigits(s) && s != [] ==> r == Some(DigitsValue(s))
    ensures s == [] ==> r == None
  {
    if s == [] then None
    else if (s[0] == '-' || s[0] == '+') && |s| > 1 && AllDigits(s[1..]) then
      var magnitude: int := DigitsValue(s[1..]);
      Some(if s[0] == '-' then -magnitude else magnitude)
    else if AllDigits(s) then Some(DigitsValue(s))
    else None
  }

  // -------------------------------------------------------------------
  // repr() of a text, as int() quotes it in its error message
  // -------------------------------------------------------------------

  /** The quote `repr` puts around a text: a single quote, unless the text
      holds a single quote and no double quote. */
  function ReprQuote(s: string): (q: char)
    ensures q == '\'' || q == '"'
    ensures q == '"' ==> q !in s && '\'' in s
  {
    if '\'' in s && '"' !in s then '"' else '\''
  }

  predicate IsHexDigit(c: char) {
    '0' <= c <= '9' || 'a' <= c <= 'f'
  }

  function HexDigit(d: nat): (c: char)
    requires d < 16
    ensures IsHexDigit(c)
  {
    if d < 10 then ('0' as int + d) as char else ('a' as int + d - 10) as char
  }

  function HexValue(c: char): (d: nat)
    requires IsHexDigit(c)
    ensures d < 16 && HexDigit(d) == c
  {
    if c <= '9' then c as int - '0' as int else c as int - 'a' as int + 10
  }

  /** A character `repr` writes as `\xhh`: an ASCII control character
      other than tab, newline and carriage return. */
  predicate IsControl(c: char) {
    (c as int < 32 || c as int == 127) && c != '\n' && c != '\r' && c != '\t'
  }

  /** How `repr` writes one character between the quotes `q`. */
  function EscapeChar(c: char, q: char): string {
    if c == '\\' then "\\\\"
    else if c == q then ['\\', q]
    else if c == '\n' then "\\n"
    else if c == '\r' then "\\r"
    else if c == '\t' then "\\t"
    else if IsControl(c) then "\\x" + [HexDigit(c as int / 16), HexDigit(c as int % 16)]
    else [c]
  }

  function EscapeAll(s: string, q: char): string {
    if s == [] then [] else EscapeChar(s[0], q) + EscapeAll(s[1..], q)
  }

  /** `repr(s)` for a text whose characters are ASCII. */
  function Repr(s: string): string {
    var q := ReprQuote(s);
    [q] + EscapeAll(s, q) + [q]
  }

  /** `"%.200R" % s`: the repr cut to its first 200 characters. */
  function Repr200(s: string): (r: string)
    ensures |r| <= 200
  {
    var full := Repr(s);
    if |full| <= 200 then full else full[..200]
  }

  /** Reads back what `EscapeAll` wrote: a backslash escape gives the
      character it stands for. */
  function Unescape(e: string): string
    decreases |e|
  {
    if e == [] then []
    else if e[0] == '\\' && |e| >= 2 then
      if e[1] == 'n' then "\n" + Unescape(e[2..])
      else if e[1] == 'r' then "\r" + Unescape(e[2..])
      else if e[1] == 't' then "\t" + Unescape(e[2..])
      else if e[1] == 'x' && |e| >= 4 && IsHexDigit(e[2]) && IsHexDigit(e[3]) then
        [(HexValue(e[2]) * 16 + HexValue(e[3])) as char] + Unescape(e[4..])
      else [e[1]] + Unescape(e[2..])
    else [e[0]] + Unescape(e[1..])
  }

  lemma UnescapeStep(c: char, q: char, rest: string)
    requires q == '\'' || q == '"'
    ensures Unescape(EscapeChar(c, q) + rest) == [c] + Unescape(rest)
  {
    var e := EscapeChar(c, q) + rest;
    if c == '\\' || c == q || c == '\n' || c == '\r' || c == '\t' {
      assert e[2..] == rest;
    } else if IsControl(c) {
      var hi, lo := c as int / 16, c as int % 16;
      assert e[1] == 'x' && e[2] == HexDigit(hi) && e[3] == HexDigit(lo);
      assert e[4..] == rest;
      assert HexValue(e[2]) * 16 + HexValue(e[3]) == c as int;
    } else {
      assert e[1..] == rest;
    }
  }

  /** Escaping loses nothing: unescaping gives back the text. */
  lemma {:induction false} UnescapeEscapeAll(s: string, q: char)
    requires q == '\'' || q == '"'
    ensures Unescape(EscapeAll(s, q)) == s
  {
    if s != [] {
      UnescapeStep(s[0], q, EscapeAll(s[1..], q));
      UnescapeEscapeAll(s[1..], q);
      assert s == [s[0]] + s[1..];
    }
  }

  /** Between its quotes, a repr never holds its quote unescaped. */
  lemma {:induction false} EscapedQuote(s: string, q: char, i: nat)
    requires q == '\'' || q == '"'
    requires i < |EscapeAll(s, q)| && EscapeAll(s, q)[i] == q
    ensures i > 0 && EscapeAll(s, q)[i - 1] == '\\'
  {
    var head := EscapeChar(s[0], q);
    if i >= |head| {
      EscapedQuote(s[1..], q, i - |head|);
      assert EscapeAll(s, q)[i - 1] == EscapeAll(s[1..], q)[i - |head| - 1];
    }
  }

  /** A text holding a single quote and no double quote is shown between
      double quotes. */
  lemma ReprQuoteExample()
    ensures Repr("2'") == "\"2'\""
  {
    assert "2'"[1] == '\'';
    assert ReprQuote("2'") == '"';
    assert EscapeAll("2'", '"') == EscapeChar('2', '"') + EscapeAll("'", '"');
    assert EscapeAll("'", '"') == "'";
  }

  /** A text without quotes, backslashes or control characters is shown
      between single quotes as it is. */
  lemma {:induction false} ReprPlain(s: string)
    requires forall i :: 0 <= i < |s| ==> s[i] != '\'' && s[i] != '"' && s[i] != '\\' && 32 <= s[i] as int < 127
    ensures Repr(s) == "'" + s + "'"
  {
    PlainEscape(s, '\'');
  }

  lemma {:induction false} PlainEscape(s: string, q: char)
    requires q == '\''
    requires forall i :: 0 <= i < |s| ==> s[i] != '\'' && s[i] != '"' && s[i] != '\\' && 32 <= s[i] as int < 127
    ensures EscapeAll(s, q) == s
  {
    if s != [] {
      PlainEscape(s[1..], q);
      assert s == [s[0]] + s[1..];
    }
  }

  /** Python's `sep.join(parts)`. */
  function Join(parts: seq<string>, sep: string): string
  {
    if |parts| == 0 then ""
    else if |parts| == 1 then parts[0]
    else parts[0] + sep + Join(parts[1..], sep)
  }

  function UpperChar(c: char): char {
    if 'a' <= c <= 'z' then (c as int - 32) as char else c
  }

  /** Python's `s.upper()` on ASCII text. */
  function Upper(s: string): (u: string)
    ensures |u| == |s|
    ensures forall i :: 0 <= i < |s| ==> u[i] == UpperChar(s[i])
  {
    seq(|s|, i requires 0 <= i < |s| => UpperChar(s[i]))
  }

  /** Python's `sub in s`. */
  predicate Contains(s: string, sub: string) {
    exists i :: 0 <= i && i + |sub| <= |s| && OccursAt(s, sub, i)
  }

  predicate OccursAt(s: string, sub: string, i: nat)
    requires i + |sub| <= |s|
  {
    s[i..i + |sub|] == sub
  }

  /** Python's `s.replace(pat, "")`: every occurrence of `pat`, taken left
      to right without overlap, is deleted. */
  function RemoveAll(s: string, pat: string): (r: string)
    requires |pat| > 0
    ensures |r| <= |s|
    decreases |s|
  {
    if |s| < |pat| then s
    else if s[..|pat|] == pat then RemoveAll(s[|pat|..], pat)
    else [s[0]] + RemoveAll(s[1..], pat)
  }

  /** Text that cannot start an occurrence of `pat` passes through
      `RemoveAll` unchanged. */
  lemma {:induction false} RemoveAllSkips(a: string, b: string, pat: string)
    requires |pat| > 0 && pat[0] !in a
    ensures RemoveAll(a + b, pat) == a + RemoveAll(b, pat)
  {
    if a == [] {
      assert a + b == b;
    } else {
      var s := a + b;
      if |s| < |pat| {
        assert RemoveAll(b, pat) == b;
      } else {
        assert s[..|pat|][0] == a[0];
        assert RemoveAll(s, pat) == [s[0]] + RemoveAll(s[1..], pat);
        assert s[1..] == a[1..] + b;
        RemoveAllSkips(a[1..], b, pat);
        assert a == [a[0]] + a[1..];
      }
    }
  }

  lemma RemoveAllDrops(b: string, pat: string)
    requires |pat| > 0
    ensures RemoveAll(pat + b, pat) == RemoveAll(b, pat)
  {
    assert (pat + b)[..|pat|] == pat;
    assert (pat + b)[|pat|..] == b;
  }

  /** Index of the first `c` in `s`, or `|s|` when there is none. */
  function IndexOfChar(s: string, c: char): (i: nat)
    ensures i <= |s|
    ensures i < |s| ==> s[i] == c
    ensures c !in s[..i]
  {
    if s == [] then 0
    else if s[0] == c then 0
    else
      assert s[..1 + IndexOfChar(s[1..], c)] == [s[0]] + s[1..][..IndexOfChar(s[1..], c)];
      1 + IndexOfChar(s[1..], c)
  }

  /** Python's `s.split(c)` for a one-character separator: the pieces
      between successive occurrences of `c`, one more than there are
      occurrences. */
  function Split(s: string, c: char): (parts: seq<string>)
    ensures |parts| >= 1
    ensures forall k :: 0 <= k < |parts| ==> c !in parts[k]
    decreases |s|
  {
    var i := IndexOfChar(s, c);
    if i == |s| then [s] else [s[..i]] + Split(s[i + 1..], c)
  }

  /** Splitting undoes joining, provided no piece holds the separator. */
  lemma {:induction false} SplitJoin(parts: seq<string>, c: char)
    requires |parts| >= 1
    requires forall k :: 0 <= k < |parts| ==> c !in parts[k]
    ensures Split(Join(parts, [c]), c) == parts
  {
    var s := Join(parts, [c]);
    if |parts| == 1 {
      assert IndexOfChar(s, c) == |s|;
    } else {
      var rest := Join(parts[1..], [c]);
      assert s == parts[0] + [c] + rest;
      assert s[|parts[0]|] == c;
      assert s[..|parts[0]|] == parts[0];
      var i := IndexOfChar(s, c);
      assert i == |parts[0]|;
      assert s[i + 1..] == rest;
      SplitJoin(parts[1..], c);
    }
  }

  /** The pieces of a split are made of characters of the whole. */
  lemma {:induction false} SplitKeepsAbsence(s: string, c: char, d: char)
    requires d !in s
    ensures forall k :: 0 <= k < |Split(s, c)| ==> d !in Split(s, c)[k]
    decreases |s|
  {
    var i := IndexOfChar(s, c);
    if i < |s| {
      assert forall x :: x in s[..i] ==> x in s;
      assert forall x :: x in s[i + 1..] ==> x in s;
      SplitKeepsAbsence(s[i + 1..], c, d);
      assert Split(s, c) == [s[..i]] + Split(s[i + 1..], c);
    }
  }
}
