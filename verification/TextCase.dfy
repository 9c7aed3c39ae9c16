/** Upper and lower case, letter by letter, and the operations on text that do not see it. */
module TextCase {
  import opened Bytes
  import opened Text

  const CAPITALS := "ABCDEFGHIJKLMNOPQRSTUVWXYZ"
  const SMALLS := "abcdefghijklmnopqrstuvwxyz"

  /** The same character, or the two cases of one letter. */
  predicate SameLetter(c: char, d: char) {
    c == d || exists i: nat :: i < 26 && SameAt(c, d, i)
  }

  predicate SameAt(c: char, d: char, i: nat)
    requires i < 26
  {
    (c == CAPITALS[i] && d == SMALLS[i]) || (c == SMALLS[i] && d == CAPITALS[i])
  }

  /** The same text, each letter of it in either case. */
  predicate SameButCase(s: string, t: string) {
    |s| == |t| && forall i :: 0 <= i < |s| ==> SameLetter(s[i], t[i])
  }

  predicate IsLetter(c: char) {
    'A' <= c <= 'Z' || 'a' <= c <= 'z'
  }

  predicate HasNoLetter(s: string) {
    forall i :: 0 <= i < |s| ==> !IsLetter(s[i])
  }

  lemma CapitalIs(i: nat)
    requires i < 26
    ensures CAPITALS[i] as int == 'A' as int + i
  {
  }

  lemma SmallIs(i: nat)
    requires i < 26
    ensures SMALLS[i] as int == 'a' as int + i
  {
  }

  lemma SameAtIs(c: char, d: char, i: nat)
    requires i < 26 && SameAt(c, d, i)
    ensures || (c as int == 'A' as int + i && d as int == 'a' as int + i)
            || (c as int == 'a' as int + i && d as int == 'A' as int + i)
  {
    CapitalIs(i);
    SmallIs(i);
    hide CAPITALS, SMALLS;
  }

  /** What does not tell the cases of a letter apart. */
  lemma LetterFacts(c: char, d: char)
    requires SameLetter(c, d)
    ensures DigitOf(c) == DigitOf(d) && IsSpace(c) == IsSpace(d)
    ensures c == d || (IsLetter(c) && IsLetter(d))
    ensures (c == 'x' || c == 'X') == (d == 'x' || d == 'X')
  {
    hide SameAt;
    if c != d {
      var i: nat :| i < 26 && SameAt(c, d, i);
      TwoCases(c, d, i);
    }
  }

  lemma TwoCases(c: char, d: char, i: nat)
    requires i < 26 && SameAt(c, d, i)
    ensures IsLetter(c) && IsLetter(d) && (c as int == d as int + 32 || d as int == c as int + 32)
  {
    CapitalIs(i);
    SmallIs(i);
  }

  lemma OccursSame(s: string, t: string, pat: string, j: nat)
    requires SameButCase(s, t) && HasNoLetter(pat)
    ensures OccursAt(s, pat, j) <==> OccursAt(t, pat, j)
  {
    if j + |pat| <= |s| {
      forall k | 0 <= k < |pat|
        ensures s[j + k] == pat[k] <==> t[j + k] == pat[k]
      {
        assert SameLetter(s[j + k], t[j + k]);
        LetterFacts(s[j + k], t[j + k]);
      }
      assert s[j..j + |pat|] == pat <==> forall k :: 0 <= k < |pat| ==> s[j + k] == pat[k];
      assert t[j..j + |pat|] == pat <==> forall k :: 0 <= k < |pat| ==> t[j + k] == pat[k];
    }
  }

  lemma FindSame(s: string, t: string, pat: string, from: nat)
    requires SameButCase(s, t) && HasNoLetter(pat)
    ensures Find(s, pat, from) == Find(t, pat, from)
  {
    hide SameButCase;
    forall j: nat
      ensures OccursAt(s, pat, j) <==> OccursAt(t, pat, j)
    {
      OccursSame(s, t, pat, j);
    }
  }

  predicate SameParts(a: seq<string>, b: seq<string>) {
    |a| == |b| && forall i :: 0 <= i < |a| ==> SameButCase(a[i], b[i])
  }

  lemma SliceSame(s: string, t: string, i: nat, j: nat)
    requires SameButCase(s, t) && i <= j <= |s|
    ensures SameButCase(s[i..j], t[i..j]) && SameButCase(s[i..], t[i..]) && SameButCase(s[..j], t[..j])
  {
    hide SameLetter;
  }

  lemma {:induction false} SplitSame(s: string, t: string, sep: string)
    requires SameButCase(s, t) && sep != "" && HasNoLetter(sep)
    ensures SameParts(Split(s, sep), Split(t, sep))
    decreases |s|
  {
    hide SameButCase, HasNoLetter, Find, Join;
    FindSame(s, t, sep, 0);
    SameLength(s, t);
    var at := Find(s, sep, 0);
    if at != -1 {
      SliceSame(s, t, at + |sep|, |s|);
      SliceSame(s, t, 0, at);
      SplitSame(s[at + |sep|..], t[at + |sep|..], sep);
    }
  }

  lemma SameLength(s: string, t: string)
    requires SameButCase(s, t)
    ensures |s| == |t|
  {
  }

  lemma {:induction false} NumeralSame(s: string, t: string, base: nat)
    requires SameButCase(s, t)
    ensures Numeral(s, base) == Numeral(t, base) && AllDigits(s, base) == AllDigits(t, base)
  {
    forall i | 0 <= i < |s|
      ensures DigitOf(s[i]) == DigitOf(t[i])
    {
      LetterFacts(s[i], t[i]);
    }
    if s != "" {
      SliceSame(s, t, 0, |s| - 1);
      NumeralSame(s[..|s| - 1], t[..|s| - 1], base);
    }
  }

  lemma {:induction false} TrimStartSame(s: string, t: string)
    requires SameButCase(s, t)
    ensures SameButCase(TrimStart(s), TrimStart(t))
  {
    if s != "" {
      LetterFacts(s[0], t[0]);
      SliceSame(s, t, 1, |s|);
      TrimStartSame(s[1..], t[1..]);
    }
  }

  lemma {:induction false} TrimEndSame(s: string, t: string)
    requires SameButCase(s, t)
    ensures SameButCase(TrimEnd(s), TrimEnd(t))
  {
    if s != "" {
      LetterFacts(s[|s| - 1], t[|s| - 1]);
      SliceSame(s, t, 0, |s| - 1);
      TrimEndSame(s[..|s| - 1], t[..|s| - 1]);
    }
  }

  lemma {:induction false} DigitRunSame(s: string, t: string, base: nat)
    requires SameButCase(s, t)
    ensures DigitRun(s, base) == DigitRun(t, base)
  {
    if s != "" {
      LetterFacts(s[0], t[0]);
      SliceSame(s, t, 1, |s|);
      DigitRunSame(s[1..], t[1..], base);
    }
  }

  /** What `parseInt` reads once white space and sign are gone. */
  lemma DigitsSame(v: string, u: string, base: nat)
    requires SameButCase(v, u)
    ensures DigitRun(v, base) == DigitRun(u, base)
    ensures Numeral(v[..DigitRun(v, base)], base) == Numeral(u[..DigitRun(u, base)], base)
  {
    hide SameButCase, Numeral, DigitRun;
    SameLength(v, u);
    DigitRunSame(v, u, base);
    SliceSame(v, u, 0, DigitRun(v, base));
    NumeralSame(v[..DigitRun(v, base)], u[..DigitRun(v, base)], base);
  }

  lemma HeadSame(s: string, t: string, i: nat)
    requires SameButCase(s, t) && i < |s|
    ensures (s[i] == 'x' || s[i] == 'X') == (t[i] == 'x' || t[i] == 'X')
    ensures (s[i] == '-') == (t[i] == '-') && (s[i] == '+') == (t[i] == '+') && (s[i] == '0') == (t[i] == '0')
  {
    LetterFacts(s[i], t[i]);
  }

  lemma ParseIntSame(s: string, t: string, base: nat)
    requires SameButCase(s, t)
    ensures ParseInt(s, base) == ParseInt(t, base)
  {
    hide SameButCase, TrimStart, Numeral, DigitRun;
    TrimStartSame(s, t);
    var s1, t1 := TrimStart(s), TrimStart(t);
    SameLength(s1, t1);
    if s1 != "" { HeadSame(s1, t1, 0); }
    var k := if s1 != "" && (s1[0] == '-' || s1[0] == '+') then 1 else 0;
    assert s1[0..] == s1 && t1[0..] == t1;
    SliceSame(s1, t1, k, |s1|);
    var s2, t2 := s1[k..], t1[k..];
    if |s2| >= 2 {
      HeadSame(s2, t2, 0);
      HeadSame(s2, t2, 1);
    }
    var j := if base == 16 && |s2| >= 2 && s2[0] == '0' && (s2[1] == 'x' || s2[1] == 'X') then 2 else 0;
    assert s2[0..] == s2 && t2[0..] == t2;
    SliceSame(s2, t2, j, |s2|);
    DigitsSame(s2[j..], t2[j..], base);
  }
}
