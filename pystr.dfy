/**
 * The Python `str` operations the query pipeline leans on: `in`, `lower()`,
 * `strip()`, `split(sep)[-1]`, `len(split())`, `sep.join`, `str(int)` and
 * the regular expression search for four digits. (`startswith` is Dafny's
 * prefix test `<=`.)
 */
module PyStr {
  import opened Wrappers

  // ---------------------------------------------------------------------
  // Characters
  // ---------------------------------------------------------------------

  /** Python's whitespace: the characters `str.isspace` accepts, which both
      `strip()` and `split()` without arguments remove. */
  predicate IsSpace(c: char) {
    || ('\t' <= c <= '\r')
    || ('\U{1c}' <= c <= '\U{1f}')
    || c == ' ' || c == '\U{85}' || c == '\U{a0}' || c == '\U{1680}'
    || ('\U{2000}' <= c <= '\U{200a}')
    || c == '\U{2028}' || c == '\U{2029}' || c == '\U{202f}' || c == '\U{205f}'
    || c == '\U{3000}'
  }

  predicate IsDigit(c: char) {
    '0' <= c <= '9'
  }

  predicate AllSpace(s: string) {
    forall i :: 0 <= i < |s| ==> IsSpace(s[i])
  }

  /** `c.lower()` restricted to ASCII letters. */
  function LowerChar(c: char): char {
    if 'A' <= c <= 'Z' then (c as int + 32) as char else c
  }

  /** `s.lower()`, character by character. */
  function Lower(s: string): string {
    seq(|s|, i requires 0 <= i < |s| => LowerChar(s[i]))
  }

  /** Lowering touches letters only: whitespace and digits survive. */
  lemma LowerKeepsSpaces(s: string)
    requires AllSpace(s)
    ensures AllSpace(Lower(s)) && |Lower(s)| == |s|
  {
  }

  /** Lowering keeps the length and every character that is not an
      upper-case ASCII letter; each such letter moves to its lower-case
      partner, 32 code points up. No upper-case ASCII letter is left, and
      whitespace and digits stay what they are. */
  lemma LowerSpec(s: string)
    ensures |Lower(s)| == |s|
    ensures forall i :: 0 <= i < |s| && !('A' <= s[i] <= 'Z') ==> Lower(s)[i] == s[i]
    ensures forall i :: 0 <= i < |s| && 'A' <= s[i] <= 'Z' ==> Lower(s)[i] as int == s[i] as int + 32
    ensures forall i :: 0 <= i < |s| ==>
              && (IsSpace(Lower(s)[i]) <==> IsSpace(s[i]))
              && (IsDigit(Lower(s)[i]) <==> IsDigit(s[i]))
              && !('A' <= Lower(s)[i] <= 'Z')
  {
  }

  /** Lowering what is already lowered changes nothing. */
  lemma LowerIdempotent(s: string)
    ensures Lower(Lower(s)) == Lower(s)
  {
  }

  // ---------------------------------------------------------------------
  // Substrings
  // ---------------------------------------------------------------------

  /** `sub` occurs in `s` starting at index `i`. */
  predicate OccursAt(s: string, sub: string, i: int) {
    0 <= i && i + |sub| <= |s| && s[i..i + |sub|] == sub
  }

  /** Python's `sub in s`, scanning from the left (the empty string occurs
      everywhere). */
  predicate Contains(s: string, sub: string)
    decreases |s|
  {
    sub <= s || (|s| > 0 && Contains(s[1..], sub))
  }

  /** `Contains` is exactly "occurs at some index". */
  lemma {:induction false} ContainsIff(s: string, sub: string)
    ensures Contains(s, sub) <==> exists i :: OccursAt(s, sub, i)
    decreases |s|
  {
    if sub <= s {
      assert OccursAt(s, sub, 0);
    } else if |s| > 0 {
      ContainsIff(s[1..], sub);
      if Contains(s[1..], sub) {
        var i :| OccursAt(s[1..], sub, i);
        assert s[i + 1..i + 1 + |sub|] == s[1..][i..i + |sub|];
        assert OccursAt(s, sub, i + 1);
      } else {
        forall i | 0 <= i && i + |sub| <= |s| ensures !OccursAt(s, sub, i) {
          if i == 0 {
            assert s[0..|sub|] == s[..|sub|];
          } else {
            assert s[1..][i - 1..i - 1 + |sub|] == s[i..i + |sub|];
            assert !OccursAt(s[1..], sub, i - 1);
          }
        }
      }
    }
  }

  /** Whatever contains `a + b + c` contains `b`. */
  lemma ContainsMiddle(s: string, a: string, b: string, c: string)
    requires Contains(s, a + b + c)
    ensures Contains(s, b)
  {
    ContainsPart(a, b, c);
    ContainsTrans(s, a + b + c, b);
  }

  /** A concatenation contains each of its middle parts. */
  lemma ContainsPart(a: string, b: string, c: string)
    ensures Contains(a + b + c, b)
  {
    var s := a + b + c;
    assert s[|a|..|a| + |b|] == b;
    assert OccursAt(s, b, |a|);
    ContainsIff(s, b);
  }

  /** A concatenation contains its left part. */
  lemma ContainsLeft(a: string, b: string)
    ensures Contains(a + b, a)
  {
    assert (a + b)[..|a|] == a;
  }

  /** A concatenation contains its right part. */
  lemma ContainsRight(a: string, b: string)
    ensures Contains(a + b, b)
  {
    assert (a + b)[|a|..] == b;
    assert OccursAt(a + b, b, |a|);
    ContainsIff(a + b, b);
  }

  /** Containment is transitive. */
  lemma ContainsTrans(s: string, t: string, u: string)
    requires Contains(s, t) && Contains(t, u)
    ensures Contains(s, u)
  {
    ContainsIff(s, t);
    ContainsIff(t, u);
    var i :| OccursAt(s, t, i);
    var j :| OccursAt(t, u, j);
    forall k | 0 <= k < |u| ensures s[i + j + k] == u[k] {
      assert s[i..i + |t|][j + k] == t[j + k];
      assert t[j..j + |u|][k] == u[k];
    }
    assert s[i + j..i + j + |u|] == u;
    assert OccursAt(s, u, i + j);
    ContainsIff(s, u);
  }

  // ---------------------------------------------------------------------
  // strip()
  // ---------------------------------------------------------------------

  /** `s.lstrip()`. */
  function TrimStart(s: string): string
    decreases |s|
  {
    if |s| > 0 && IsSpace(s[0]) then TrimStart(s[1..]) else s
  }

  /** `lstrip()` leaves a suffix whose dropped prefix is whitespace and
      which does not itself start with whitespace. */
  lemma {:induction false} TrimStartSpec(s: string)
    ensures var r := TrimStart(s);
            |r| <= |s| && r == s[|s| - |r|..] && AllSpace(s[..|s| - |r|])
            && (r == [] || !IsSpace(r[0]))
    decreases |s|
  {
    if |s| > 0 && IsSpace(s[0]) {
      TrimStartSpec(s[1..]);
      var r := TrimStart(s);
      assert s[1..][..|s| - 1 - |r|] == s[1..|s| - |r|];
      assert forall j :: 0 < j < |s| - |r| ==> s[j] == s[1..|s| - |r|][j - 1];
    }
  }

  /** `s.rstrip()`. */
  function TrimEnd(s: string): string
    decreases |s|
  {
    if |s| > 0 && IsSpace(s[|s| - 1]) then TrimEnd(s[..|s| - 1]) else s
  }

  /** `rstrip()` leaves a prefix whose dropped suffix is whitespace and
      which does not itself end with whitespace. */
  lemma {:induction false} TrimEndSpec(s: string)
    ensures var r := TrimEnd(s);
            |r| <= |s| && r == s[..|r|] && AllSpace(s[|r|..])
            && (r == [] || !IsSpace(r[|r| - 1]))
    decreases |s|
  {
    if |s| > 0 && IsSpace(s[|s| - 1]) {
      TrimEndSpec(s[..|s| - 1]);
      var r := TrimEnd(s);
      assert s[..|s| - 1][|r|..] == s[|r|..|s| - 1];
      assert forall j :: |r| <= j < |s| - 1 ==> s[j] == s[|r|..|s| - 1][j - |r|];
    }
  }

  /** No whitespace at either end: what `strip()` leaves. */
  predicate IsStripped(s: string) {
    s == [] || (!IsSpace(s[0]) && !IsSpace(s[|s| - 1]))
  }

  /** `s.strip()`: `s` minus its leading and trailing whitespace. */
  function Strip(s: string): (r: string)
    ensures IsStripped(r)
    ensures r == [] <==> AllSpace(s)
  {
    StripShape(s);
    TrimEnd(TrimStart(s))
  }

  /** `lstrip()` then `rstrip()` leaves no whitespace at either end, and
      leaves nothing exactly when there was nothing but whitespace. */
  lemma StripShape(s: string)
    ensures var r := TrimEnd(TrimStart(s));
            IsStripped(r) && (r == [] <==> AllSpace(s))
  {
    var t := TrimStart(s);
    var r := TrimEnd(t);
    TrimStartSpec(s);
    TrimEndSpec(t);
    assert r != [] ==> r[0] == t[0];
    if r == [] {
      assert t[|r|..] == t;
      assert s[..|s| - |t|] == s;
    } else {
      assert !IsSpace(s[|s| - |t|]);
    }
  }

  /** What `strip()` keeps is a slice of `s` with only whitespace around it. */
  lemma StripSlice(s: string)
    ensures var r := Strip(s);
            exists i :: 0 <= i <= |s| - |r| && r == s[i..i + |r|]
                        && AllSpace(s[..i]) && AllSpace(s[i + |r|..])
  {
    var t := TrimStart(s);
    var r := TrimEnd(t);
    TrimStartSpec(s);
    TrimEndSpec(t);
    var i := |s| - |t|;
    assert s[i..i + |r|] == r;
    assert s[i + |r|..] == t[|r|..];
  }

  /** Stripping what is already stripped changes nothing; in particular
      `strip()` is idempotent. */
  lemma StripStripped(s: string)
    requires IsStripped(s)
    ensures Strip(s) == s
  {
  }

  lemma StripIdempotent(s: string)
    ensures Strip(Strip(s)) == Strip(s)
  {
    StripStripped(Strip(s));
  }

  // ---------------------------------------------------------------------
  // split(sep)[-1]
  // ---------------------------------------------------------------------

  /** `s.split(sep)[-1]` for a non-empty separator: Python scans for the
      separator from left to right without overlaps, and the last piece is
      what follows the last separator found (all of `s` when there is none). */
  function SplitLast(s: string, sep: string): (r: string)
    requires sep != []
    ensures |r| <= |s| && r == s[|s| - |r|..]
    decreases |s|
  {
    if sep <= s then
      var r := SplitLast(s[|sep|..], sep);
      SuffixOfDrop(s, |sep|, |r|);
      r
    else if |s| > 0 && Contains(s[1..], sep) then
      var r := SplitLast(s[1..], sep);
      SuffixOfDrop(s, 1, |r|);
      r
    else
      s
  }

  /** The last `n` characters of `s[d..]` are the last `n` of `s`. */
  lemma SuffixOfDrop(s: string, d: nat, n: nat)
    requires d <= |s| && n <= |s| - d
    ensures s[d..][|s| - d - n..] == s[|s| - n..]
  {
  }

  /** A string without the separator is its own last piece. */
  lemma SplitLastWhole(s: string, sep: string)
    requires sep != [] && !Contains(s, sep)
    ensures SplitLast(s, sep) == s
  {
  }

  /** The last piece holds no separator. */
  lemma {:induction false} SplitLastHasNoSep(s: string, sep: string)
    requires sep != []
    ensures !Contains(SplitLast(s, sep), sep)
    decreases |s|
  {
    if sep <= s {
      SplitLastHasNoSep(s[|sep|..], sep);
    } else if |s| > 0 && Contains(s[1..], sep) {
      SplitLastHasNoSep(s[1..], sep);
    }
  }

  /** A separator ends right where the last `n` characters of `s` begin. */
  predicate SepBeforeLast(s: string, sep: string, n: nat) {
    n + |sep| <= |s| && s[|s| - n - |sep|..|s| - n] == sep
  }

  /** What holds of a suffix of `s` about its end holds of `s`. */
  lemma SepBeforeLastOfSuffix(s: string, d: nat, sep: string, n: nat)
    requires d <= |s| && SepBeforeLast(s[d..], sep, n)
    ensures SepBeforeLast(s, sep, n)
  {
    var t := s[d..];
    assert t[|t| - n - |sep|..|t| - n] == s[|s| - n - |sep|..|s| - n];
  }

  /** A string that opens with its only separator: the last piece is the rest. */
  lemma SplitLastAfterOnlySep(s: string, sep: string)
    requires sep != [] && sep <= s && !Contains(s[|sep|..], sep)
    ensures SepBeforeLast(s, sep, |SplitLast(s, sep)|)
  {
    var t := s[|sep|..];
    SplitLastWhole(t, sep);
    assert SplitLast(s, sep) == t;
    assert |s| - |t| - |sep| == 0 && |s| - |t| == |sep|;
    assert s[0..|sep|] == sep;
  }

  /** When the separator occurs, one stands right before the last piece. */
  lemma {:induction false} SplitLastAfterSep(s: string, sep: string)
    requires sep != [] && Contains(s, sep)
    ensures SepBeforeLast(s, sep, |SplitLast(s, sep)|)
    decreases |s|
  {
    var d := if sep <= s then |sep| else 1;
    var t := s[d..];
    if sep <= s && !Contains(t, sep) {
      SplitLastAfterOnlySep(s, sep);
    } else {
      assert SplitLast(s, sep) == SplitLast(t, sep);
      SplitLastAfterSep(t, sep);
      SepBeforeLastOfSuffix(s, d, sep, |SplitLast(t, sep)|);
    }
  }

  /** `split(sep)[-1]` of a string holding the separator: a suffix that
      follows an occurrence of the separator and holds none itself. */
  lemma SplitLastSpec(s: string, sep: string)
    requires sep != [] && Contains(s, sep)
    ensures var r := SplitLast(s, sep);
            r == s[|s| - |r|..] && SepBeforeLast(s, sep, |r|) && !Contains(r, sep)
  {
    SplitLastAfterSep(s, sep);
    SplitLastHasNoSep(s, sep);
  }

  /** No two occurrences of `sep` can overlap: no proper suffix of `sep`
      is also its prefix. */
  predicate NoSelfOverlap(sep: string) {
    forall d :: 0 < d < |sep| ==> sep[d..] != sep[..|sep| - d]
  }

  /** A separator whose every shifted copy disagrees with it in one of its
      first two characters cannot overlap itself. */
  lemma NoSelfOverlapByShift(sep: string)
    requires |sep| > 0
    requires forall d :: 0 < d < |sep| ==> sep[d] != sep[0] || (d + 1 < |sep| && sep[d + 1] != sep[1])
    ensures NoSelfOverlap(sep)
  {
    forall d | 0 < d < |sep| ensures sep[d..] != sep[..|sep| - d] {
      assert sep[d] != sep[0] || (d + 1 < |sep| && sep[d + 1] != sep[1]);
      if sep[d] != sep[0] {
        assert sep[d..][0] != sep[..|sep| - d][0];
      } else {
        assert sep[d..][1] != sep[..|sep| - d][1];
      }
    }
  }

  /** Two occurrences closer together than the separator's length make a
      proper suffix of the separator equal to its prefix. */
  lemma OverlapShift(s: string, sep: string, p: int, q: int)
    requires OccursAt(s, sep, p) && OccursAt(s, sep, q) && p < q
    ensures q < p + |sep| ==> sep[q - p..] == sep[..|sep| - (q - p)]
  {
    if q < p + |sep| {
      var d := q - p;
      forall k | 0 <= k < |sep| - d ensures sep[d..][k] == sep[..|sep| - d][k] {
        assert sep[d + k] == s[p + d + k] == s[q + k] == sep[k];
      }
    }
  }

  /** An occurrence at or after `n` is an occurrence in `s[n..]`. */
  lemma OccursInSuffix(s: string, sep: string, p: int, n: nat)
    requires OccursAt(s, sep, p) && n <= |s|
    ensures n <= p ==> OccursAt(s[n..], sep, p - n)
  {
    if n <= p {
      assert s[n..][p - n..p - n + |sep|] == s[p..p + |sep|];
    }
  }

  /** An occurrence of a separator that cannot overlap itself ends by the
      start of the suffix `s[n..]` when that suffix holds no occurrence and
      the separator ends right where it begins. */
  lemma OccurrenceBefore(s: string, sep: string, p: int, n: nat)
    requires NoSelfOverlap(sep) && |sep| <= n <= |s|
    requires OccursAt(s, sep, p) && OccursAt(s, sep, n - |sep|)
    requires !exists i :: OccursAt(s[n..], sep, i)
    ensures p + |sep| <= n
  {
    var q := n - |sep|;
    OccursInSuffix(s, sep, p, n);
    if p < q {
      OverlapShift(s, sep, p, q);
    } else if q < p {
      OverlapShift(s, sep, q, p);
    }
  }

  /** For a separator that cannot overlap itself, the last piece starts
      after every occurrence: it is what follows the last one. */
  lemma SplitLastAfterLast(s: string, sep: string)
    requires sep != [] && Contains(s, sep) && NoSelfOverlap(sep)
    ensures forall p :: OccursAt(s, sep, p) ==> p + |sep| <= |s| - |SplitLast(s, sep)|
  {
    var r := SplitLast(s, sep);
    SplitLastSpec(s, sep);
    ContainsIff(r, sep);
    var n := |s| - |r|;
    assert r == s[n..];
    assert OccursAt(s, sep, n - |sep|);
    forall p | OccursAt(s, sep, p) ensures p + |sep| <= n {
      OccurrenceBefore(s, sep, p, n);
    }
  }

  // ---------------------------------------------------------------------
  // len(s.split())
  // ---------------------------------------------------------------------

  /** `len(s.split())`: the number of maximal runs of non-whitespace. Each
      run is counted at its last character. */
  function WordCount(s: string): nat
    decreases |s|
  {
    if s == [] then 0
    else if !IsSpace(s[0]) && (|s| == 1 || IsSpace(s[1])) then 1 + WordCount(s[1..])
    else WordCount(s[1..])
  }

  /** There are no words exactly when there is no visible character. */
  lemma {:induction false} WordCountZero(s: string)
    ensures WordCount(s) == 0 <==> AllSpace(s)
    decreases |s|
  {
    if s != [] {
      WordCountZero(s[1..]);
      if !IsSpace(s[0]) && |s| > 1 && !IsSpace(s[1]) {
        assert !AllSpace(s[1..]) by { assert !IsSpace(s[1..][0]); }
      }
      if AllSpace(s) {
        assert forall i :: 0 <= i < |s| - 1 ==> s[1..][i] == s[i + 1];
      }
      if AllSpace(s[1..]) && IsSpace(s[0]) {
        assert forall i :: 0 < i < |s| ==> s[i] == s[1..][i - 1];
      }
    }
  }

  /** Leading whitespace adds no word. */
  lemma {:induction false} WordCountSpaces(w: string, b: string)
    requires AllSpace(w)
    ensures WordCount(w + b) == WordCount(b)
    decreases |w|
  {
    if w == [] {
      assert w + b == b;
    } else {
      assert (w + b)[1..] == w[1..] + b;
      assert IsSpace((w + b)[0]);
      WordCountSpaces(w[1..], b);
    }
  }

  /** Text split at a run of whitespace holds the words of both sides. */
  lemma {:induction false} WordCountJoin(a: string, w: string, b: string)
    requires w != [] && AllSpace(w)
    ensures WordCount(a + w + b) == WordCount(a) + WordCount(b)
    decreases |a|
  {
    var s := a + w + b;
    if a == [] {
      assert s == w + b;
      WordCountSpaces(w, b);
    } else {
      assert s[0] == a[0];
      assert s[1..] == a[1..] + w + b;
      if |a| == 1 {
        assert s[1] == w[0];
        assert a[1..] == [];
      } else {
        assert s[1] == a[1];
      }
      WordCountJoin(a[1..], w, b);
    }
  }

  /** A non-empty run without whitespace is one word. */
  lemma {:induction false} WordCountWord(w: string)
    requires w != [] && forall i :: 0 <= i < |w| ==> !IsSpace(w[i])
    ensures WordCount(w) == 1
    decreases |w|
  {
    if |w| > 1 {
      assert !IsSpace(w[1]);
      assert forall i :: 0 <= i < |w| - 1 ==> w[1..][i] == w[i + 1];
      WordCountWord(w[1..]);
    }
  }

  // ---------------------------------------------------------------------
  // re.search(r'(\d{4})', s)
  // ---------------------------------------------------------------------

  /** Four consecutive digits start at index `i`. */
  predicate FourDigitsAt(s: string, i: int) {
    0 <= i && i + 4 <= |s|
    && IsDigit(s[i]) && IsDigit(s[i + 1]) && IsDigit(s[i + 2]) && IsDigit(s[i + 3])
  }

  /** The leftmost index at or after `from` where four digits start. */
  function FirstFourDigitsFrom(s: string, from: nat): (r: Option<nat>)
    ensures r.Some? ==> from <= r.value && FourDigitsAt(s, r.value)
    ensures r.Some? ==> forall j :: from <= j < r.value ==> !FourDigitsAt(s, j)
    ensures r.None? ==> forall j :: from <= j ==> !FourDigitsAt(s, j)
    decreases |s| - from
  {
    if from + 4 > |s| then None
    else if FourDigitsAt(s, from) then Some(from)
    else FirstFourDigitsFrom(s, from + 1)
  }

  /** `re.search(r'(\d{4})', s).group(1)`, or None when the search fails:
      the leftmost run of four digits. */
  function SearchFourDigits(s: string): (r: Option<string>)
    ensures r.Some? ==> exists i :: FourDigitsAt(s, i) && r.value == s[i..i + 4]
                                    && forall j :: 0 <= j < i ==> !FourDigitsAt(s, j)
    ensures r.None? <==> forall j :: !FourDigitsAt(s, j)
  {
    match FirstFourDigitsFrom(s, 0)
    case Some(i) => Some(s[i..i + 4])
    case None => None
  }

  /** A blank string holds no digits. */
  lemma BlankHasNoYear(s: string)
    requires AllSpace(s)
    ensures SearchFourDigits(s) == None
  {
    forall j | 0 <= j < |s| ensures !FourDigitsAt(s, j) {
      assert IsSpace(s[j]);
    }
  }

  // ---------------------------------------------------------------------
  // str(n) for integers
  // ---------------------------------------------------------------------

  function DigitChar(d: nat): char
    requires d < 10
  {
    ('0' as int + d) as char
  }

  function DigitValue(c: char): nat
    requires IsDigit(c)
  {
    c as int - '0' as int
  }

  /** The number a string of decimal digits denotes. */
  function DecimalValue(s: string): nat
    requires forall i :: 0 <= i < |s| ==> IsDigit(s[i])
  {
    if s == [] then 0 else 10 * DecimalValue(s[..|s| - 1]) + DigitValue(s[|s| - 1])
  }

  /** `str(n)` for a non-negative integer: decimal digits without leading zeros. */
  function NatToString(n: nat): (r: string)
    ensures |r| > 0 && forall i :: 0 <= i < |r| ==> IsDigit(r[i])
    ensures r[0] == '0' ==> r == "0"
  {
    if n < 10 then [DigitChar(n)] else NatToString(n / 10) + [DigitChar(n % 10)]
  }

  /** The decimal text of `n` reads back as `n`. */
  lemma {:induction false} NatToStringRoundTrip(n: nat)
    ensures DecimalValue(NatToString(n)) == n
  {
    if n >= 10 {
      var s := NatToString(n);
      assert s[..|s| - 1] == NatToString(n / 10);
      NatToStringRoundTrip(n / 10);
    }
  }

  /** `str(n)` for any integer: a minus sign precedes the digits of a negative one. */
  function IntToString(n: int): string {
    if n < 0 then "-" + NatToString(-n) else NatToString(n)
  }

  predicate AllDigits(s: string) {
    forall i :: 0 <= i < |s| ==> IsDigit(s[i])
  }

  /** Text an integer literal is read from: digits, after an optional minus sign. */
  predicate IsIntLiteral(s: string) {
    if |s| > 0 && s[0] == '-' then |s| > 1 && AllDigits(s[1..]) else |s| > 0 && AllDigits(s)
  }

  /** The integer such a literal denotes. */
  function IntValue(s: string): int
    requires IsIntLiteral(s)
  {
    if s[0] == '-' then -(DecimalValue(s[1..]) as int) else DecimalValue(s) as int
  }

  /** `str(n)` is an integer literal that reads back as `n`. */
  lemma IntToStringRoundTrip(n: int)
    ensures IsIntLiteral(IntToString(n)) && IntValue(IntToString(n)) == n
  {
    if n < 0 {
      var t := NatToString(-n);
      NatToStringRoundTrip(-n);
      assert IntToString(n)[1..] == t;
    } else {
      NatToStringRoundTrip(n);
    }
  }

  // ---------------------------------------------------------------------
  // sep.join(xs)
  // ---------------------------------------------------------------------

  /** `sep.join(xs)`. */
  function Join(sep: string, xs: seq<string>): string {
    if |xs| == 0 then "" else if |xs| == 1 then xs[0] else xs[0] + sep + Join(sep, xs[1..])
  }

  /** Joining one more item appends the separator and that item. */
  lemma {:induction false} JoinAppend(sep: string, xs: seq<string>, x: string)
    requires |xs| > 0
    ensures Join(sep, xs + [x]) == Join(sep, xs) + sep + x
    decreases |xs|
  {
    if |xs| == 1 {
      assert (xs + [x])[1..] == [x];
    } else {
      assert (xs + [x])[1..] == xs[1..] + [x];
      JoinAppend(sep, xs[1..], x);
    }
  }

  /** Every joined item appears in the joined text. */
  lemma {:induction false} JoinContains(sep: string, xs: seq<string>, i: nat)
    requires i < |xs|
    ensures Contains(Join(sep, xs), xs[i])
    decreases |xs|
  {
    if |xs| == 1 {
      assert xs[0] <= Join(sep, xs);
    } else if i == 0 {
      ContainsLeft(xs[0], sep);
      ContainsLeft(xs[0] + sep, Join(sep, xs[1..]));
      ContainsTrans(Join(sep, xs), xs[0] + sep, xs[0]);
    } else {
      JoinContains(sep, xs[1..], i - 1);
      ContainsRight(xs[0] + sep, Join(sep, xs[1..]));
      ContainsTrans(Join(sep, xs), Join(sep, xs[1..]), xs[i]);
    }
  }
}
