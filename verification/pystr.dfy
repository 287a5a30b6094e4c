/** The few Python `str` operations the bot relies on: the `in` substring test,
    `split(sep, 1)` on a one-character separator, and `str()` of an integer. */
module PyStr {
  import opened Wrappers

  /** `sub` occurs in `s` starting at index `i`. */
  ghost predicate OccursAt(sub: string, s: string, i: int)
  {
    0 <= i && i + |sub| <= |s| && s[i..i + |sub|] == sub
  }

  /** `sub` occurs somewhere in `s` (the empty string occurs everywhere). */
  ghost predicate IsSubstring(sub: string, s: string)
  {
    exists i :: OccursAt(sub, s, i)
  }

  /** Dropping a first character that does not start an occurrence keeps
      exactly the occurrences there were. */
  lemma ShiftOccurrence(sub: string, s: string)
    requires 0 < |sub| <= |s|
    requires s[..|sub|] != sub
    ensures IsSubstring(sub, s) <==> IsSubstring(sub, s[1..])
  {
    if IsSubstring(sub, s) {
      var i :| OccursAt(sub, s, i);
      assert i != 0;
      assert s[1..][i - 1..i - 1 + |sub|] == s[i..i + |sub|];
      assert OccursAt(sub, s[1..], i - 1);
    }
    if IsSubstring(sub, s[1..]) {
      var j :| OccursAt(sub, s[1..], j);
      assert s[1..][j..j + |sub|] == s[j + 1..j + 1 + |sub|];
      assert OccursAt(sub, s, j + 1);
    }
  }

  /** A string holding a character that `s` lacks cannot occur in `s`. */
  lemma AbsentCharBlocksSubstring(sub: string, s: string, c: char)
    requires c in sub && c !in s
    ensures !IsSubstring(sub, s)
  {
  }

  /** Python's `sub in s`: a left-to-right scan for an occurrence. */
  function Contains(s: string, sub: string): (b: bool)
    ensures b <==> IsSubstring(sub, s)
    decreases |s|
  {
    if |sub| > |s| then false
    else if s[..|sub|] == sub then assert OccursAt(sub, s, 0); true
    else ShiftOccurrence(sub, s); Contains(s[1..], sub)
  }

  /** The search for the first separator inside `split(sep, 1)`: the index of
      the first `c` in `s`, if any. */
  function FindChar(s: string, c: char): (r: Option<nat>)
    ensures r.None? <==> c !in s
    ensures r.Some? ==> r.value < |s| && s[r.value] == c
    ensures r.Some? ==> forall k :: 0 <= k < r.value ==> s[k] != c
  {
    if |s| == 0 then None
    else if s[0] == c then Some(0)
    else
      assert s == [s[0]] + s[1..];
      match FindChar(s[1..], c)
      case None => None
      case Some(k) => Some(k + 1)
  }

  /** Python's `s.split(sep, 1)` for a one-character separator: the whole string
      when `sep` does not occur, otherwise the parts before and after its first
      occurrence. */
  function SplitOnce(s: string, sep: char): (parts: seq<string>)
    ensures |parts| == 1 || |parts| == 2
    ensures |parts| == 1 <==> sep !in s
    ensures |parts| == 1 ==> parts[0] == s
    ensures |parts| == 2 ==> parts[0] + [sep] + parts[1] == s && sep !in parts[0]
  {
    match FindChar(s, sep)
    case None => [s]
    case Some(i) =>
      assert s[..i] + [sep] + s[i + 1..] == s;
      assert forall k :: 0 <= k < i ==> s[..i][k] == s[k];
      [s[..i], s[i + 1..]]
  }

  /** In `a + [sep] + b` with no `sep` inside `a`, the first `sep` sits at index `|a|`. */
  lemma FirstSeparatorAt(a: string, b: string, sep: char)
    requires sep !in a
    ensures (a + [sep] + b)[|a|] == sep
    ensures forall i :: 0 <= i < |a| ==> (a + [sep] + b)[i] != sep
  {
  }

  /** A string has at most one split at the first occurrence of a separator. */
  lemma SplitPointUnique(a: string, b: string, a': string, b': string, sep: char)
    requires sep !in a && sep !in a'
    requires a + [sep] + b == a' + [sep] + b'
    ensures a == a' && b == b'
  {
    var s := a + [sep] + b;
    FirstSeparatorAt(a, b, sep);
    FirstSeparatorAt(a', b', sep);
    assert |a| == |a'|;
    assert a == s[..|a|] == a';
    assert b == s[|a| + 1..] == b';
  }

  /** The decimal digit character for `d`. */
  function DigitChar(d: nat): (c: char)
    requires d < 10
    ensures '0' <= c <= '9'
  {
    ('0' as int + d) as char
  }

  /** The value of a decimal digit character (0 for anything else). */
  function DigitValue(c: char): nat
  {
    if '0' <= c <= '9' then c as int - '0' as int else 0
  }

  /** A canonical decimal numeral: digits only, and no leading zero unless the
      numeral is "0" itself. */
  predicate IsDecimal(s: string)
  {
    && |s| >= 1
    && (forall i :: 0 <= i < |s| ==> '0' <= s[i] <= '9')
    && (s[0] == '0' ==> |s| == 1)
  }

  /** The form Python's `str()` gives an integer: a canonical decimal numeral,
      preceded by `-` when the value is negative (never "-0"). */
  predicate IsNumeral(s: string)
  {
    || IsDecimal(s)
    || (|s| >= 2 && s[0] == '-' && IsDecimal(s[1..]) && s[1..] != "0")
  }

  /** Python's `str(n)` for a non-negative integer. */
  function ShowNat(n: nat): (s: string)
    ensures IsDecimal(s)
    ensures s == "0" <==> n == 0
    decreases n
  {
    if n < 10 then [DigitChar(n)] else ShowNat(n / 10) + [DigitChar(n % 10)]
  }

  /** Reads a string of decimal digits back as a number. */
  function ParseNat(s: string): nat
  {
    if |s| == 0 then 0 else ParseNat(s[..|s| - 1]) * 10 + DigitValue(s[|s| - 1])
  }

  lemma {:induction false} ParseShowNat(n: nat)
    ensures ParseNat(ShowNat(n)) == n
    decreases n
  {
    if n >= 10 {
      var s := ShowNat(n / 10) + [DigitChar(n % 10)];
      assert s[..|s| - 1] == ShowNat(n / 10);
      ParseShowNat(n / 10);
    }
  }

  /** Every canonical decimal numeral is the one `str()` gives for its value. */
  lemma {:induction false} DecimalCanonical(s: string)
    requires IsDecimal(s)
    ensures ShowNat(ParseNat(s)) == s
    decreases |s|
  {
    var last := s[|s| - 1];
    assert DigitChar(DigitValue(last)) == last;
    if |s| == 1 {
      assert s[..0] == [];
    } else {
      var init := s[..|s| - 1];
      assert init[0] == s[0];
      DecimalCanonical(init);
      var m := ParseNat(init);
      assert m != 0;
      var n := ParseNat(s);
      assert n / 10 == m && n % 10 == DigitValue(last);
      assert s == init + [last];
    }
  }

  /** Reads an optionally negative decimal numeral. */
  function ParseInt(s: string): int
  {
    if |s| > 0 && s[0] == '-' then -(ParseNat(s[1..]) as int) else ParseNat(s)
  }

  /** Python's `str(n)` for an integer: a minus sign, then the digits of `|n|`. */
  function ShowInt(n: int): (s: string)
    ensures IsNumeral(s)
    ensures ParseInt(s) == n
    ensures s[0] == '-' <==> n < 0
  {
    if n < 0 then
      ParseShowNat(-n);
      assert ("-" + ShowNat(-n))[1..] == ShowNat(-n);
      "-" + ShowNat(-n)
    else
      ParseShowNat(n);
      ShowNat(n)
  }

  /** Every numeral in the form `str()` produces is the one it gives for its value. */
  lemma NumeralCanonical(s: string)
    requires IsNumeral(s)
    ensures ShowInt(ParseInt(s)) == s
  {
    if IsDecimal(s) {
      DecimalCanonical(s);
    } else {
      var t := s[1..];
      DecimalCanonical(t);
      assert ParseNat(t) != 0;
      assert s == "-" + t;
    }
  }

  /** Two numerals of that form with the same value are the same string. */
  lemma NumeralUnique(s: string, t: string)
    requires IsNumeral(s) && IsNumeral(t)
    requires ParseInt(s) == ParseInt(t)
    ensures s == t
  {
    NumeralCanonical(s);
    NumeralCanonical(t);
  }
}
