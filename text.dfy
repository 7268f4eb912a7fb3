/** String primitives the logger is built on: the C library's `tolower` in the
    "C" locale, `std::string::find`, `std::string::replace`, the decimal form
    written by `std::to_string` and `operator<<`, and `std::setw` with
    `std::setfill`. Strings are sequences of characters. */
module Text {

  datatype Option<T> = None | Some(value: T)

  // ---------------------------------------------------------------------------
  // Case

  predicate IsUpper(c: char) {
    'A' <= c <= 'Z'
  }

  /** `tolower` in the "C" locale: an upper-case ASCII letter becomes the
      matching lower-case letter, every other character is left alone. */
  function LowerChar(c: char): (r: char)
    ensures !IsUpper(r)
    ensures IsUpper(c) ==> 'a' <= r <= 'z' && r as int - 'a' as int == c as int - 'A' as int
    ensures !IsUpper(c) ==> r == c
  {
    if IsUpper(c) then (c as int - 'A' as int + 'a' as int) as char else c
  }

  /** `std::transform(s.begin(), s.end(), s.begin(), ::tolower)`, as a value. */
  function ToLower(s: string): (r: string)
    ensures |r| == |s|
    ensures forall i :: 0 <= i < |s| ==> r[i] == LowerChar(s[i])
  {
    if s == [] then [] else [LowerChar(s[0])] + ToLower(s[1..])
  }

  /** The two strings spell the same word up to the case of ASCII letters. */
  predicate EqualsIgnoringCase(a: string, b: string) {
    |a| == |b| && forall i :: 0 <= i < |a| ==> LowerChar(a[i]) == LowerChar(b[i])
  }

  predicate HasUpper(s: string) {
    exists i :: 0 <= i < |s| && IsUpper(s[i])
  }

  /** Lower-casing `s` yields a given lower-case word exactly when `s` is that
      word in some casing. */
  lemma ToLowerEqualsIff(s: string, word: string)
    requires !HasUpper(word)
    ensures ToLower(s) == word <==> EqualsIgnoringCase(s, word)
  {
    if EqualsIgnoringCase(s, word) {
      forall i | 0 <= i < |s|
        ensures ToLower(s)[i] == word[i]
      {
        assert !IsUpper(word[i]);
      }
    }
  }

  /** No string lower-cases to a word that contains an upper-case letter. */
  lemma ToLowerNeverHasUpper(s: string, word: string)
    requires HasUpper(word)
    ensures ToLower(s) != word
  {
    var i :| 0 <= i < |word| && IsUpper(word[i]);
    if i < |s| {
      assert !IsUpper(ToLower(s)[i]);
    }
  }

  // ---------------------------------------------------------------------------
  // Searching

  /** `token` sits in `s` starting at index `i`. */
  predicate OccursAt(s: string, token: string, i: int) {
    0 <= i && i + |token| <= |s| && s[i..i + |token|] == token
  }

  predicate Contains(s: string, token: string) {
    exists i :: 0 <= i <= |s| && OccursAt(s, token, i)
  }

  /** `p` is the leftmost place where `token` occurs in `s`. */
  predicate IsFirstOccurrence(s: string, token: string, p: int) {
    OccursAt(s, token, p) && forall j :: 0 <= j < p ==> !OccursAt(s, token, j)
  }

  /** `s.find(token, from)`: the leftmost occurrence at or after `from`;
      `None` plays the part of `std::string::npos`. */
  function FindFrom(s: string, token: string, from: nat): (r: Option<nat>)
    requires from <= |s|
    ensures r.Some? ==> from <= r.value && OccursAt(s, token, r.value)
    ensures r.Some? ==> forall j :: from <= j < r.value ==> !OccursAt(s, token, j)
    ensures r.None? ==> forall j :: from <= j ==> !OccursAt(s, token, j)
    decreases |s| - from
  {
    if from + |token| > |s| then None
    else if s[from..from + |token|] == token then Some(from)
    else
      assert token != [];
      FindFrom(s, token, from + 1)
  }

  /** `s.find(token)`. */
  function FindFirst(s: string, token: string): (r: Option<nat>)
    ensures r.Some? ==> IsFirstOccurrence(s, token, r.value)
    ensures r.None? ==> !Contains(s, token)
  {
    FindFrom(s, token, 0)
  }

  /** Every occurrence has a leftmost one. */
  lemma FirstOccurrenceExists(s: string, token: string)
    requires Contains(s, token)
    ensures exists p :: IsFirstOccurrence(s, token, p)
  {
    var r := FindFirst(s, token);
    assert IsFirstOccurrence(s, token, r.value);
  }

  // ---------------------------------------------------------------------------
  // Replacing

  /** `s.replace(pos, count, repl)`: at most `count` characters from `pos` on
      (fewer when the string ends first) are replaced by `repl`. */
  function ReplaceAt(s: string, pos: nat, count: nat, repl: string): (r: string)
    requires pos <= |s|
    ensures |r| == |s| - (if pos + count <= |s| then count else |s| - pos) + |repl|
    ensures r[..pos] == s[..pos] && r[pos..pos + |repl|] == repl
    ensures pos + count <= |s| ==> r[pos + |repl|..] == s[pos + count..]
  {
    var end := if pos + count <= |s| then pos + count else |s|;
    s[..pos] + repl + s[end..]
  }

  /** The find-then-replace step the logger performs for each placeholder.
      Without an occurrence of `token` the string is returned as it is;
      otherwise exactly the token's characters are taken out and `repl`
      put in. */
  function ReplaceFirst(s: string, token: string, repl: string): (r: string)
    ensures !Contains(s, token) ==> r == s
    ensures Contains(s, token) ==> |r| == |s| - |token| + |repl|
  {
    match FindFirst(s, token)
    case None => s
    case Some(p) => ReplaceAt(s, p, |token|, repl)
  }

  /** The replacement happens at the leftmost occurrence, and the text
      before and after it is kept. */
  lemma ReplaceFirstAtFirstOccurrence(s: string, token: string, repl: string, p: nat)
    requires IsFirstOccurrence(s, token, p)
    ensures ReplaceFirst(s, token, repl) == s[..p] + repl + s[p + |token|..]
  {
    var f := FindFirst(s, token);
    assert f.Some?;
    assert f.value == p by {
      assert !(f.value < p) && !(p < f.value);
    }
  }

  /** Only the first occurrence is replaced: an occurrence of the same token
      further on is still there afterwards, shifted by the change in length. */
  lemma ReplaceFirstKeepsLaterOccurrences(s: string, token: string, repl: string, p: nat, q: nat)
    requires IsFirstOccurrence(s, token, p)
    requires OccursAt(s, token, q) && p + |token| <= q
    ensures OccursAt(ReplaceFirst(s, token, repl), token, q - |token| + |repl|)
  {
    KeepsTextAfter(s, token, repl, p, token, q);
  }

  /** Text that ends before the replaced occurrence stays where it was. */
  lemma KeepsTextBefore(s: string, token: string, repl: string, p: nat, text: string, q: nat)
    requires IsFirstOccurrence(s, token, p)
    requires OccursAt(s, text, q) && q + |text| <= p
    ensures OccursAt(ReplaceFirst(s, token, repl), text, q)
  {
    ReplaceFirstAtFirstOccurrence(s, token, repl, p);
    var r := ReplaceFirst(s, token, repl);
    SliceInFront(s[..p], repl + s[p + |token|..], q, q + |text|);
    assert r == s[..p] + (repl + s[p + |token|..]);
    assert r[q..q + |text|] == s[..p][q..q + |text|];
  }

  /** Text that starts after the replaced occurrence is shifted by the change
      in length. */
  lemma KeepsTextAfter(s: string, token: string, repl: string, p: nat, text: string, q: nat)
    requires IsFirstOccurrence(s, token, p)
    requires OccursAt(s, text, q) && p + |token| <= q
    ensures OccursAt(ReplaceFirst(s, token, repl), text, q - |token| + |repl|)
  {
    var r := ReplaceFirst(s, token, repl);
    var front, tail := s[..p] + repl, s[p + |token|..];
    ReplaceFirstAtFirstOccurrence(s, token, repl, p);
    var k := q - (p + |token|);
    SliceOfSuffix(s, p + |token|, k, |text|);
    SliceOfAppend(front, tail, k, |text|);
    assert |front| + k == q - |token| + |repl|;
    assert OccursAt(r, text, |front| + k);
  }

  lemma SliceInFront(a: string, b: string, i: nat, j: nat)
    requires i <= j <= |a|
    ensures (a + b)[i..j] == a[i..j]
  {
  }

  lemma SliceOfSuffix(s: string, m: nat, k: nat, n: nat)
    requires m + k + n <= |s|
    ensures s[m..][k..k + n] == s[m + k..m + k + n]
  {
  }

  lemma PrefixOfAppend(a: string, b: string)
    ensures (a + b)[..|a|] == a
  {
  }

  lemma SuffixOfAppend(a: string, b: string)
    ensures (a + b)[|a|..] == b
  {
  }

  lemma SliceOfAppend(a: string, b: string, k: nat, n: nat)
    requires k + n <= |b|
    ensures (a + b)[|a| + k..|a| + k + n] == b[k..k + n]
  {
  }

  // ---------------------------------------------------------------------------
  // Decimal numbers

  predicate IsDigit(c: char) {
    '0' <= c <= '9'
  }

  predicate AllDigits(s: string) {
    forall i :: 0 <= i < |s| ==> IsDigit(s[i])
  }

  function DigitValue(c: char): (d: nat)
    requires IsDigit(c)
    ensures d < 10
  {
    c as int - '0' as int
  }

  function DigitChar(d: nat): (c: char)
    requires d < 10
    ensures IsDigit(c) && DigitValue(c) == d
  {
    ('0' as int + d) as char
  }

  /** The number a string of decimal digits denotes, most significant first. */
  function DigitsValue(s: string): nat
    requires AllDigits(s)
  {
    if s == [] then 0 else 10 * DigitsValue(s[..|s| - 1]) + DigitValue(s[|s| - 1])
  }

  /** The digits of `n` without padding or leading zeros, as `std::to_string`
      and `operator<<` write a non-negative integer. */
  function NatToDecimal(n: nat): (r: string)
    ensures |r| >= 1 && AllDigits(r) && DigitsValue(r) == n
    ensures |r| > 1 ==> r[0] != '0'
  {
    if n < 10 then [DigitChar(n)]
    else
      var front := NatToDecimal(n / 10);
      var r := front + [DigitChar(n % 10)];
      assert r[..|r| - 1] == front;
      r
  }

  /** `std::to_string(int)`: a minus sign for a negative number, then the
      digits of its magnitude. */
  function IntToDecimal(n: int): (r: string)
    ensures n >= 0 ==> |r| >= 1 && AllDigits(r) && DigitsValue(r) == n && (|r| > 1 ==> r[0] != '0')
    ensures n < 0 ==> |r| >= 2 && r[0] == '-' && AllDigits(r[1..]) && DigitsValue(r[1..]) == -n
    ensures n < 0 && |r| > 2 ==> r[1] != '0'
  {
    if n < 0 then
      var r := "-" + NatToDecimal(-n);
      assert r[1..] == NatToDecimal(-n);
      r
    else NatToDecimal(n)
  }

  function Pow10(k: nat): (p: nat)
    ensures p >= 1
  {
    if k == 0 then 1 else 10 * Pow10(k - 1)
  }

  /** A number below 10^k has at most k digits. */
  lemma {:induction false} NatToDecimalLength(n: nat, k: nat)
    requires 1 <= k && n < Pow10(k)
    ensures |NatToDecimal(n)| <= k
  {
    if n >= 10 {
      assert Pow10(1) == 10;
      NatToDecimalLength(n / 10, k - 1);
    }
  }

  /** `os << std::setw(width) << std::setfill(fill) << s` for right-aligned
      output: `s` is preceded by enough `fill` characters to reach `width`. */
  function PadLeft(s: string, width: nat, fill: char): (r: string)
    ensures |r| == if |s| >= width then |s| else width
    ensures r[|r| - |s|..] == s
    ensures forall i :: 0 <= i < |r| - |s| ==> r[i] == fill
  {
    if |s| >= width then s else seq(width - |s|, _ => fill) + s
  }

  /** Leading zeros do not change the value of a digit string. */
  lemma {:induction false} LeadingZerosValue(zeros: string, s: string)
    requires forall i :: 0 <= i < |zeros| ==> zeros[i] == '0'
    requires AllDigits(s)
    ensures AllDigits(zeros + s) && DigitsValue(zeros + s) == DigitsValue(s)
    decreases |s|
  {
    var t := zeros + s;
    if s == [] {
      assert t == zeros;
      ZerosValue(zeros);
    } else {
      var front := s[..|s| - 1];
      assert t[..|t| - 1] == zeros + front;
      LeadingZerosValue(zeros, front);
    }
  }

  lemma {:induction false} ZerosValue(zeros: string)
    requires forall i :: 0 <= i < |zeros| ==> zeros[i] == '0'
    ensures AllDigits(zeros) && DigitsValue(zeros) == 0
  {
    if zeros != [] {
      ZerosValue(zeros[..|zeros| - 1]);
    }
  }
}
