/** The string operations of the language the program is written in, as far as it uses them. */
module Text {
  import opened Bytes

  // ---------------------------------------------------------- split and join

  /** `s.split(sep)` */
  function Split(s: string, sep: string): (parts: seq<string>)
    requires sep != ""
    ensures parts != []
    ensures Join(parts, sep) == s
    decreases |s|
  {
    var at := Find(s, sep, 0);
    if at == -1 then [s] else
      var rest := Split(s[at + |sep|..], sep);
      assert s == s[..at] + sep + s[at + |sep|..];
      assert ([s[..at]] + rest)[1..] == rest;
      [s[..at]] + rest
  }

  /** `parts.join(sep)` */
  function Join(parts: seq<string>, sep: string): string {
    if parts == [] then ""
    else if |parts| == 1 then parts[0]
    else parts[0] + sep + Join(parts[1..], sep)
  }

  /** Each part is in what joining gives. */
  lemma {:induction false} JoinHolds(parts: seq<string>, k: nat, sep: string) returns (at: nat)
    requires k < |parts|
    ensures OccursAt(Join(parts, sep), parts[k], at)
  {
    var s := Join(parts, sep);
    if |parts| == 1 {
      at := 0;
      assert s[0..|s|] == s;
    } else if k == 0 {
      at := 0;
      assert s == parts[0] + (sep + Join(parts[1..], sep));
    } else {
      var rest := Join(parts[1..], sep);
      var i := JoinHolds(parts[1..], k - 1, sep);
      at := |parts[0]| + |sep| + i;
      assert s[at..at + |parts[k]|] == rest[i..i + |parts[k]|];
    }
  }

  /** Splitting undoes joining when no part holds the separator character. */
  lemma {:induction false} SplitJoin(parts: seq<string>, c: char)
    requires parts != []
    requires forall p :: p in parts ==> c !in p
    ensures Split(Join(parts, [c]), [c]) == parts
  {
    var s := Join(parts, [c]);
    var at := |parts[0]|;
    assert forall j: nat :: j < at ==> s[j] == parts[0][j];
    forall j: nat | j < at
      ensures !OccursAt(s, [c], j)
    {
      assert s[j..j + 1] == [s[j]] && s[j] in parts[0] && parts[0] in parts;
    }
    if |parts| == 1 {
      assert !OccursAt(s, [c], at);
    } else {
      FindIs(s, [c], 0, at);
      assert s[..at] == parts[0] && s[at + 1..] == Join(parts[1..], [c]);
      SplitJoin(parts[1..], c);
    }
  }

  /** The two sides of the only occurrence of a separator. */
  lemma SplitTwo(a: string, sep: string, b: string)
    requires sep != "" && Find(a + sep + b, sep, 0) == |a| && Find(b, sep, 0) == -1
    ensures Split(a + sep + b, sep) == [a, b]
  {
    var s := a + sep + b;
    assert s[..|a|] == a && s[|a| + |sep|..] == b;
  }

  lemma JoinSnoc(parts: seq<string>, last: string, sep: string)
    requires parts != []
    ensures Join(parts + [last], sep) == Join(parts, sep) + sep + last
  {
    if |parts| > 1 {
      JoinSnoc(parts[1..], last, sep);
      assert (parts + [last])[1..] == parts[1..] + [last];
    }
  }

  /** A one-character search fails exactly when the character is absent. */
  lemma FindChar(s: string, c: char)
    ensures Find(s, [c], 0) == -1 <==> c !in s
  {
    var at := Find(s, [c], 0);
    if at != -1 {
      assert s[at] == s[at..at + 1][0];
    } else {
      forall i: nat | i < |s|
        ensures s[i] != c
      {
        assert !OccursAt(s, [c], i) && s[i..i + 1] == [s[i]];
      }
    }
  }

  /** Nothing is found that starts with a character the text does not hold. */
  lemma FindAbsent(s: string, pat: string, from: nat)
    requires pat != "" && pat[0] !in s
    ensures Find(s, pat, from) == -1
  {
    forall j: nat
      ensures !OccursAt(s, pat, j)
    {
      if j + |pat| <= |s| {
        assert s[j..j + |pat|][0] == s[j];
      }
    }
  }

  /** Text cut at the first occurrence of a character. */
  lemma CutAtMark(a: string, mark: char, b: string)
    requires mark !in a
    ensures var s := a + [mark] + b;
            Find(s, [mark], 0) == |a| && s[..|a|] == a && s[|a| + 1..] == b
  {
    hide Find;
    var s := a + [mark] + b;
    forall j: nat | j < |a|
      ensures !OccursAt(s, [mark], j)
    {
      assert s[j] == a[j] && s[j..j + 1] == [s[j]];
    }
    assert s[|a|..|a| + 1] == [mark];
    FindIs(s, [mark], 0, |a|);
  }

  // -------------------------------------------------------------------- trim

  /** What `trim` removes: ECMAScript white space and line terminators. */
  predicate IsSpace(c: char) {
    || '\t' <= c <= '\r' || c == ' ' || c == '\U{A0}' || c == '\U{1680}'
    || '\U{2000}' <= c <= '\U{200A}' || c == '\U{2028}' || c == '\U{2029}'
    || c == '\U{202F}' || c == '\U{205F}' || c == '\U{3000}' || c == '\U{FEFF}'
  }

  /** The same, one by one: the WhiteSpace and LineTerminator code points of ECMAScript. */
  const WHITE_SPACE :=
    "\t\n\U{0B}\U{0C}\r \U{A0}\U{1680}\U{2000}\U{2001}\U{2002}\U{2003}\U{2004}\U{2005}\U{2006}\U{2007}\U{2008}" +
    "\U{2009}\U{200A}\U{2028}\U{2029}\U{202F}\U{205F}\U{3000}\U{FEFF}"

  lemma SpaceIsListed(c: char)
    ensures IsSpace(c) <==> c in WHITE_SPACE
  {
  }

  function TrimStart(s: string): string {
    if s != "" && IsSpace(s[0]) then TrimStart(s[1..]) else s
  }

  function TrimEnd(s: string): string {
    if s != "" && IsSpace(s[|s| - 1]) then TrimEnd(s[..|s| - 1]) else s
  }

  function Trim(s: string): string {
    TrimEnd(TrimStart(s))
  }

  /** Text that neither starts nor ends with white space is left alone. */
  lemma TrimKeeps(s: string)
    requires s == "" || (!IsSpace(s[0]) && !IsSpace(s[|s| - 1]))
    ensures Trim(s) == s
  {
  }

  predicate AllSpace(s: string) {
    forall i :: 0 <= i < |s| ==> IsSpace(s[i])
  }

  /** What `trimStart` takes away is the white space there is. */
  lemma {:induction false} TrimStartCuts(s: string)
    ensures var t := TrimStart(s);
            && |t| <= |s| && s == s[..|s| - |t|] + t && AllSpace(s[..|s| - |t|])
            && (t == "" || !IsSpace(t[0]))
  {
    if s != "" && IsSpace(s[0]) {
      TrimStartCuts(s[1..]);
      var n := |s| - |TrimStart(s)|;
      assert s[..n] == [s[0]] + s[1..][..n - 1];
    } else {
      assert s[..0] + s == s;
    }
  }

  lemma {:induction false} TrimEndCuts(s: string)
    ensures var t := TrimEnd(s);
            && |t| <= |s| && s == t + s[|t|..] && AllSpace(s[|t|..])
            && (t == "" || (t[0] == s[0] && !IsSpace(t[|t| - 1])))
  {
    hide IsSpace, TrimEnd;
    TrimEndIs(s);
    if s != "" && IsSpace(s[|s| - 1]) {
      var u, c := s[..|s| - 1], s[|s| - 1];
      TrimEndCuts(u);
      SplitsLast(u, c, |TrimEnd(u)|);
      assert s == u + [c];
    }
  }

  lemma TrimEndIs(s: string)
    ensures TrimEnd(s) == if s != "" && IsSpace(s[|s| - 1]) then TrimEnd(s[..|s| - 1]) else s
  {
  }

  lemma SplitsLast(u: string, c: char, k: nat)
    requires k <= |u|
    ensures (u + [c])[k..] == u[k..] + [c] && (u + [c])[..k] == u[..k]
  {
  }

  /** Trimming takes white space off both ends, all of it, and nothing else. */
  lemma TrimExactly(s: string) returns (before: string, after: string)
    ensures s == before + Trim(s) + after && AllSpace(before) && AllSpace(after)
    ensures Trim(s) == "" || (!IsSpace(Trim(s)[0]) && !IsSpace(Trim(s)[|Trim(s)| - 1]))
  {
    hide TrimStart, TrimEnd, IsSpace;
    TrimStartCuts(s);
    var t := TrimStart(s);
    TrimEndCuts(t);
    before, after := s[..|s| - |t|], t[|Trim(s)|..];
    assert s == before + (Trim(s) + after);
  }

  lemma {:induction false} TrimStartTo(blanks: string, t: string)
    requires AllSpace(blanks) && (t == "" || !IsSpace(t[0]))
    ensures TrimStart(blanks + t) == t
  {
    if blanks == "" {
      assert blanks + t == t;
    } else {
      assert (blanks + t)[1..] == blanks[1..] + t;
      TrimStartTo(blanks[1..], t);
    }
  }

  // ---------------------------------------------------------------- numerals

  /** The value of a digit character in any base up to sixteen; 16 for any other character. */
  function DigitOf(c: char): (d: nat)
    ensures d <= 16
  {
    if '0' <= c <= '9' then c as int - '0' as int
    else if 'a' <= c <= 'f' then c as int - 'a' as int + 10
    else if 'A' <= c <= 'F' then c as int - 'A' as int + 10
    else 16
  }

  function DigitChar(d: nat): (c: char)
    requires d < 16
    ensures DigitOf(c) == d
  {
    if d < 10 then ('0' as int + d) as char else ('a' as int + d - 10) as char
  }

  /** A digit's value is its position in the alphabet of digits, in either case; nothing
      else is a digit. */
  lemma DigitIsPosition(d: nat)
    requires d < 16
    ensures DigitOf("0123456789abcdef"[d]) == d
    ensures DigitOf("0123456789ABCDEF"[d]) == d
    ensures forall c: char :: DigitOf(c) == d ==> c == "0123456789abcdef"[d] || c == "0123456789ABCDEF"[d]
  {
  }

  predicate AllDigits(s: string, base: nat) {
    forall i :: 0 <= i < |s| ==> DigitOf(s[i]) < base
  }

  /** The digits of the two bases in use. */
  lemma DigitsAreListed(s: string)
    ensures AllDigits(s, 10) <==> forall c :: c in s ==> c in "0123456789"
    ensures AllDigits(s, 16) <==> forall c :: c in s ==> c in "0123456789abcdefABCDEF"
  {
    forall c: char
      ensures DigitOf(c) < 10 <==> c in "0123456789"
      ensures DigitOf(c) < 16 <==> c in "0123456789abcdefABCDEF"
    {
    }
  }

  /** The two bases in use. Written out so that only constants are multiplied. */
  function Times(n: nat, base: nat): nat {
    if base == 10 then 10 * n else 16 * n
  }

  /** The number a string of digits spells, in either case and with any leading zeros. */
  function Numeral(s: string, base: nat): nat {
    if s == "" then 0 else Times(Numeral(s[..|s| - 1], base), base) + DigitOf(s[|s| - 1])
  }

  /** `n.toString(base)` */
  function ToNumeral(n: nat, base: nat): (s: string)
    requires base == 10 || base == 16
    ensures s != "" && AllDigits(s, base) && Numeral(s, base) == n
  {
    if n < base then
      assert [DigitChar(n)][..0] == "";
      [DigitChar(n)]
    else
      var front := ToNumeral(n / base, base);
      var s := front + [DigitChar(n % base)];
      assert s[..|s| - 1] == front;
      s
  }

  lemma {:induction false} NumeralLength(n: nat, base: nat, k: nat)
    requires (base == 10 || base == 16) && k > 0 && n < Pow(base, k)
    ensures |ToNumeral(n, base)| <= k
  {
    if n >= base {
      assert Pow(base, k) == base * Pow(base, k - 1);
      assert Pow(base, 0) == 1;
      if base == 10 { assert n / 10 < Pow(10, k - 1); } else { assert n / 16 < Pow(16, k - 1); }
      NumeralLength(n / base, base, k - 1);
    }
  }

  lemma {:induction false} NumeralBelow(s: string, base: nat)
    requires AllDigits(s, base) && (base == 10 || base == 16)
    ensures Numeral(s, base) < Pow(base, |s|)
  {
    if s != "" {
      NumeralBelow(s[..|s| - 1], base);
      assert Pow(base, |s|) == Times(Pow(base, |s| - 1), base);
    }
  }

  function DigitRun(s: string, base: nat): (n: nat)
    ensures n <= |s| && AllDigits(s[..n], base)
    ensures n < |s| ==> DigitOf(s[n]) >= base
  {
    if s != "" && DigitOf(s[0]) < base then 1 + DigitRun(s[1..], base) else 0
  }

  /** `parseInt(s, base)`; None is NaN. The longest run of digits after an
      optional sign and, in base 16, an optional 0x; whatever follows is ignored. */
  function ParseInt(s: string, base: nat): Option<int> {
    var t := TrimStart(s);
    var negative := t != "" && t[0] == '-';
    var u := if t != "" && (t[0] == '-' || t[0] == '+') then t[1..] else t;
    var v := if base == 16 && |u| >= 2 && u[0] == '0' && (u[1] == 'x' || u[1] == 'X') then u[2..] else u;
    var run := DigitRun(v, base);
    if run == 0 then None
    else if negative then Some(0 - Numeral(v[..run], base))
    else Some(Numeral(v[..run], base))
  }

  /** A plain numeral is read as the number it spells. */
  lemma ParseIntNumeral(s: string, base: nat)
    requires s != "" && AllDigits(s, base) && base <= 16
    ensures ParseInt(s, base) == Some(Numeral(s, base))
  {
    assert DigitOf('-') == 16 && DigitOf('+') == 16 && DigitOf('x') == 16 && DigitOf('X') == 16;
    assert DigitRun(s, base) == |s|;
    assert s[..|s|] == s;
    assert DigitOf(s[0]) < base;
    assert TrimStart(s) == s;
    if |s| >= 2 { assert DigitOf(s[1]) < base; }
  }

  lemma {:induction false} DigitRunIs(digits: string, junk: string, base: nat)
    requires AllDigits(digits, base) && (junk == "" || DigitOf(junk[0]) >= base)
    ensures DigitRun(digits + junk, base) == |digits|
  {
    if digits == "" {
      assert digits + junk == junk;
    } else {
      assert (digits + junk)[1..] == digits[1..] + junk;
      DigitRunIs(digits[1..], junk, base);
    }
  }

  /** The texts in which `parseInt` finds the decimal number `n`: white space, a sign,
      digits, and then nothing or anything that is no digit. */
  ghost predicate Spells(s: string, n: int) {
    exists blanks, sign, digits, junk ::
      && s == blanks + (sign + (digits + junk))
      && AllSpace(blanks) && (sign == "" || sign == "+" || sign == "-")
      && digits != "" && AllDigits(digits, 10) && (junk == "" || DigitOf(junk[0]) >= 10)
      && n == if sign == "-" then 0 - Numeral(digits, 10) else Numeral(digits, 10)
  }

  lemma SpelledIsFound(s: string, n: int)
    requires Spells(s, n)
    ensures ParseInt(s, 10) == Some(n)
  {
    hide AllSpace, AllDigits, DigitOf, Numeral, ParseInt;
    var blanks, sign, digits, junk :|
      && s == blanks + (sign + (digits + junk))
      && AllSpace(blanks) && (sign == "" || sign == "+" || sign == "-")
      && digits != "" && AllDigits(digits, 10) && (junk == "" || DigitOf(junk[0]) >= 10)
      && n == if sign == "-" then 0 - Numeral(digits, 10) else Numeral(digits, 10);
    PartsAreFound(blanks, sign, digits, junk);
  }

  lemma PartsAreFound(blanks: string, sign: string, digits: string, junk: string)
    requires AllSpace(blanks) && (sign == "" || sign == "+" || sign == "-")
    requires digits != "" && AllDigits(digits, 10) && (junk == "" || DigitOf(junk[0]) >= 10)
    ensures ParseInt(blanks + (sign + (digits + junk)), 10) ==
            Some(if sign == "-" then 0 - Numeral(digits, 10) else Numeral(digits, 10))
  {
    hide TrimStart, DigitRun, Numeral;
    var t := sign + (digits + junk);
    assert DigitOf(digits[0]) < 10 && t[0] == if sign == "" then digits[0] else sign[0];
    SpaceIsNoDigit(t[0]);
    TrimStartTo(blanks, t);
    DigitRunIs(digits, junk, 10);
    assert t[|sign|..] == digits + junk && t[0..] == t;
    assert (digits + junk)[..|digits|] == digits;
  }

  lemma SpaceIsNoDigit(c: char)
    ensures IsSpace(c) ==> DigitOf(c) == 16 && c != '+' && c != '-' && c != ':'
  {
  }

  lemma SpellsBy(blanks: string, sign: string, digits: string, junk: string)
    requires AllSpace(blanks) && (sign == "" || sign == "+" || sign == "-")
    requires digits != "" && AllDigits(digits, 10) && (junk == "" || DigitOf(junk[0]) >= 10)
    ensures Spells(blanks + (sign + (digits + junk)),
                   if sign == "-" then 0 - Numeral(digits, 10) else Numeral(digits, 10))
  {
    hide Numeral, AllSpace, AllDigits;
  }

  /** Digits and what follows them. */
  lemma DigitsThenJunk(v: string)
    ensures var run := DigitRun(v, 10);
            && AllDigits(v[..run], 10) && v == v[..run] + v[run..]
            && (v[run..] == "" || DigitOf(v[run..][0]) >= 10)
  {
    hide DigitRun;
    var run := DigitRun(v, 10);
    assert run < |v| ==> v[run..][0] == v[run];
  }

  lemma FoundIsSpelled(s: string, n: int)
    requires ParseInt(s, 10) == Some(n)
    ensures Spells(s, n)
  {
    hide TrimStart, DigitRun, Numeral, AllSpace, AllDigits, Spells, DigitOf;
    TrimStartCuts(s);
    var t := TrimStart(s);
    var signed := t[0] == '-' || t[0] == '+';
    var sign, v := if signed then [t[0]] else "", if signed then t[1..] else t;
    DigitsThenJunk(v);
    var run := DigitRun(v, 10);
    assert t == sign + v;
    SpellsBy(s[..|s| - |t|], sign, v[..run], v[run..]);
  }

  /** The number is the same whatever follows a colon. */
  lemma {:induction false} TrimStartBefore(a: string, c: char, b: string)
    requires !IsSpace(c)
    ensures TrimStart(a + [c] + b) == TrimStart(a) + [c] + b
  {
    if a != "" && IsSpace(a[0]) {
      assert (a + [c] + b)[1..] == a[1..] + [c] + b;
      TrimStartBefore(a[1..], c, b);
    } else {
      assert (a + [c] + b)[0] == if a == "" then c else a[0];
    }
  }

  lemma DigitRunStops(v: string, b: string)
    ensures DigitRun(v + ":" + b, 10) == DigitRun(v, 10)
    ensures (v + ":" + b)[..DigitRun(v, 10)] == v[..DigitRun(v, 10)]
  {
    hide DigitRun;
    assert DigitOf(':') == 16;
    var run := DigitRun(v, 10);
    var junk := v[run..] + ":" + b;
    assert v + ":" + b == v[..run] + junk;
    assert junk[0] == if run < |v| then v[run] else ':';
    DigitRunIs(v[..run], junk, 10);
  }

  lemma ParseIntStops(a: string, b: string)
    ensures ParseInt(a + ":" + b, 10) == ParseInt(a, 10)
  {
    hide TrimStart, DigitRun, Numeral;
    SpaceIsNoDigit(':');
    TrimStartBefore(a, ':', b);
    var t := TrimStart(a);
    var s := t + ":" + b;
    assert s[0] == if t == "" then ':' else t[0];
    if t != "" && (t[0] == '-' || t[0] == '+') {
      assert s[1..] == t[1..] + ":" + b;
      DigitRunStops(t[1..], b);
    } else {
      DigitRunStops(t, b);
    }
  }
}
