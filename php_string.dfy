/** The PHP string built-ins that TempDir.php relies on, with their PHP 8
    semantics on byte strings: trim/ltrim/rtrim, strpbrk, strrpos,
    str_replace with an empty replacement, empty() on a string, and the
    conversion of a non-negative int to its decimal string. */
module PhpString {

  datatype Option<+T> = None | Some(value: T)

  /** The characters trim(), ltrim() and rtrim() strip when they are given no
      character list: space, tab, line feed, carriage return, NUL and
      vertical tab. */
  const Whitespace: set<char> := {' ', '\t', '\n', '\r', '\0', '\U{B}'}

  const Digits: set<char> := {'0', '1', '2', '3', '4', '5', '6', '7', '8', '9'}

  /** empty($s) for a string $s: true for "" and also for "0". */
  predicate PhpEmpty(s: string)
  {
    s == "" || s == "0"
  }

  predicate EndsWith(s: string, c: char)
  {
    |s| > 0 && s[|s| - 1] == c
  }

  /** rtrim($s, $chars): drop every trailing character that is in chars. */
  function RTrim(s: string, chars: set<char>): (r: string)
    ensures |r| <= |s| && r == s[..|r|]
    ensures forall i :: |r| <= i < |s| ==> s[i] in chars
    ensures r == [] || r[|r| - 1] !in chars
    decreases |s|
  {
    if |s| > 0 && s[|s| - 1] in chars then RTrim(s[..|s| - 1], chars) else s
  }

  /** ltrim($s, $chars): drop every leading character that is in chars. */
  function LTrim(s: string, chars: set<char>): (r: string)
    ensures |r| <= |s| && r == s[|s| - |r|..]
    ensures forall i :: 0 <= i < |s| - |r| ==> s[i] in chars
    ensures r == [] || r[0] !in chars
    decreases |s|
  {
    if |s| > 0 && s[0] in chars then
      var r := LTrim(s[1..], chars);
      assert forall i :: 1 <= i < |s| ==> s[i] == s[1..][i - 1];
      r
    else s
  }

  /** needle occurs in haystack starting at index i. */
  predicate OccursAt(needle: string, haystack: string, i: nat)
  {
    i + |needle| <= |haystack| && haystack[i..i + |needle|] == needle
  }

  /** Neither end of s is in chars: trim($s, $chars) has nothing to strip. */
  predicate Trimmed(s: string, chars: set<char>)
  {
    s == [] || (s[0] !in chars && s[|s| - 1] !in chars)
  }

  /** trim($s, $chars): PHP strips the left end first, then the right end.
      What is left is a piece of s whose ends are not in chars. */
  function Trim(s: string, chars: set<char>): (r: string)
    ensures exists i: nat :: TrimmedAt(r, s, chars, i)
    ensures Trimmed(r, chars)
    ensures Trimmed(s, chars) ==> r == s
  {
    var l := LTrim(s, chars);
    TrimAt(s, l, RTrim(l, chars), chars);
    RTrim(l, chars)
  }

  /** Where Trim's result sits in s: right after the characters ltrim drops. */
  lemma TrimAt(s: string, l: string, r: string, chars: set<char>)
    requires |l| <= |s| && l == s[|s| - |l|..]
    requires forall i :: 0 <= i < |s| - |l| ==> s[i] in chars
    requires |r| <= |l| && r == l[..|r|]
    requires forall i :: |r| <= i < |l| ==> l[i] in chars
    ensures TrimmedAt(r, s, chars, |s| - |l|)
  {
    var k := |s| - |l|;
    assert s[k..k + |r|] == r by {
      assert s[k..k + |r|] == s[k..][..|r|];
    }
    forall j | k + |r| <= j < |s|
      ensures s[j] in chars
    {
      assert s[j] == l[j - k];
    }
  }

  /** r occurs in s at index i, and everything of s before and after that
      occurrence is in chars. */
  predicate TrimmedAt(r: string, s: string, chars: set<char>, i: nat)
  {
    && OccursAt(r, s, i)
    && (forall j :: 0 <= j < i ==> s[j] in chars)
    && (forall j :: i + |r| <= j < |s| ==> s[j] in chars)
  }

  /** trim() is exactly "the part of s left after dropping listed characters
      at both ends": any t occurring in s between two runs of listed
      characters, and itself neither starting nor ending with one, is Trim's
      result. */
  lemma TrimUnique(s: string, chars: set<char>, t: string, i: nat)
    requires TrimmedAt(t, s, chars, i) && Trimmed(t, chars)
    ensures t == Trim(s, chars)
  {
    if t == [] {
      LTrimAllListed(s, chars);
    } else {
      LTrimAt(s, chars, i);
      TrimmedPieceIsRTrim(s[i..], chars, t);
    }
  }

  /** A non-empty piece at the start of l, with only listed characters after
      it and an unlisted last character, is what rtrim leaves of l. */
  lemma TrimmedPieceIsRTrim(l: string, chars: set<char>, t: string)
    requires 0 < |t| <= |l| && l[..|t|] == t && t[|t| - 1] !in chars
    requires forall j :: |t| <= j < |l| ==> l[j] in chars
    ensures RTrim(l, chars) == t
  {
    assert l[|t| - 1] == t[|t| - 1];
    RTrimAt(l, chars, |t|);
  }

  /** ltrim drops everything when everything is listed. */
  lemma {:induction false} LTrimAllListed(s: string, chars: set<char>)
    requires forall j :: 0 <= j < |s| ==> s[j] in chars
    ensures LTrim(s, chars) == []
    decreases |s|
  {
    if s != [] {
      assert forall j :: 0 <= j < |s[1..]| ==> s[1..][j] == s[j + 1];
      LTrimAllListed(s[1..], chars);
    }
  }

  /** ltrim stops at the first unlisted character. */
  lemma LTrimAt(s: string, chars: set<char>, i: nat)
    requires i < |s| && s[i] !in chars
    requires forall j :: 0 <= j < i ==> s[j] in chars
    ensures LTrim(s, chars) == s[i..]
  {
    var l := LTrim(s, chars);
    var k := |s| - |l|;
    assert k <= i;
    assert l[i - k] == s[i];
    assert l[0] == s[k];
  }

  /** rtrim stops at the last unlisted character. */
  lemma RTrimAt(s: string, chars: set<char>, n: nat)
    requires 0 < n <= |s| && s[n - 1] !in chars
    requires forall j :: n <= j < |s| ==> s[j] in chars
    ensures RTrim(s, chars) == s[..n]
  {
    var r := RTrim(s, chars);
    assert n <= |r|;
    assert r[|r| - 1] == s[|r| - 1];
  }

  /** Trimming twice strips nothing more than trimming once. */
  lemma TrimIdempotent(s: string, chars: set<char>)
    ensures Trim(Trim(s, chars), chars) == Trim(s, chars)
  {
  }

  /** strpbrk($s, $chars): the tail of s that starts at the first character
      found in chars, or false (None) when s holds none of them. */
  function StrPBrk(s: string, chars: set<char>): (r: Option<string>)
    ensures r.None? <==> forall i :: 0 <= i < |s| ==> s[i] !in chars
    ensures r.Some? ==> |r.value| > 0 && |r.value| <= |s| && r.value == s[|s| - |r.value|..]
    ensures r.Some? ==> r.value[0] in chars
    ensures r.Some? ==> forall i :: 0 <= i < |s| - |r.value| ==> s[i] !in chars
    decreases |s|
  {
    if s == [] then None
    else if s[0] in chars then Some(s)
    else
      assert forall i :: 1 <= i < |s| ==> s[i] == s[1..][i - 1];
      StrPBrk(s[1..], chars)
  }

  /** strrpos($s, $c) for a one-character needle: the index of the last
      occurrence, or false (None). */
  function StrRPos(s: string, c: char): (r: Option<nat>)
    ensures r.None? <==> c !in s
    ensures r.Some? ==> r.value < |s| && s[r.value] == c
    ensures r.Some? ==> forall i :: r.value < i < |s| ==> s[i] != c
    decreases |s|
  {
    if s == [] then None
    else if s[|s| - 1] == c then Some(|s| - 1)
    else StrRPos(s[..|s| - 1], c)
  }

  /** When c does not occur in tail, the last c of head + [c] + tail is the
      one between them. */
  lemma {:induction false} StrRPosOfJoin(head: string, c: char, tail: string)
    requires c !in tail
    ensures StrRPos(head + [c] + tail, c) == Some(|head|)
  {
    var s := head + [c] + tail;
    assert s[|head|] == c;
    assert forall i :: |head| < i < |s| ==> s[i] == tail[i - |head| - 1];
  }

  /** str_replace(array_of_chars, '', $s): every listed character removed. */
  function RemoveChars(s: string, chars: set<char>): (r: string)
    ensures |r| <= |s|
    ensures forall i :: 0 <= i < |r| ==> r[i] !in chars
    decreases |s|
  {
    if s == [] then []
    else if s[0] in chars then RemoveChars(s[1..], chars)
    else [s[0]] + RemoveChars(s[1..], chars)
  }

  /** str_replace works character by character: removing from a
      concatenation is removing from each part. */
  lemma {:induction false} RemoveCharsAppend(a: string, b: string, chars: set<char>)
    ensures RemoveChars(a + b, chars) == RemoveChars(a, chars) + RemoveChars(b, chars)
    decreases |a|
  {
    if a != [] {
      assert (a + b)[0] == a[0] && (a + b)[1..] == a[1..] + b;
      RemoveCharsAppend(a[1..], b, chars);
    } else {
      assert a + b == b;
    }
  }

  /** A single character is dropped when it is listed and kept otherwise;
      with RemoveCharsAppend this determines RemoveChars on every string. */
  lemma RemoveCharsSingle(c: char, chars: set<char>)
    ensures RemoveChars([c], chars) == if c in chars then [] else [c]
  {
    assert [c][1..] == [];
  }

  /** Nothing is lost that is not listed: a string without listed characters
      is left as it is. */
  lemma {:induction false} RemoveCharsKeepsUnlisted(s: string, chars: set<char>)
    requires forall i :: 0 <= i < |s| ==> s[i] !in chars
    ensures RemoveChars(s, chars) == s
    decreases |s|
  {
    if s != [] {
      RemoveCharsKeepsUnlisted(s[1..], chars);
    }
  }

  /** str_replace keeps nothing it did not find: when s is drawn from
      allowed, what is left is drawn from allowed without the removed
      characters. */
  lemma {:induction false} RemoveCharsWithin(s: string, chars: set<char>, allowed: set<char>)
    requires forall i :: 0 <= i < |s| ==> s[i] in allowed
    ensures forall i :: 0 <= i < |RemoveChars(s, chars)| ==> RemoveChars(s, chars)[i] in allowed - chars
    decreases |s|
  {
    if s != [] {
      RemoveCharsWithin(s[1..], chars, allowed);
    }
  }

  function DigitChar(d: nat): (c: char)
    requires d < 10
    ensures c in Digits
  {
    "0123456789"[d]
  }

  function DigitValue(c: char): (d: nat)
    requires c in Digits
    ensures d < 10 && DigitChar(d) == c
  {
    c as int - '0' as int
  }

  /** The string PHP produces for a non-negative int: its decimal digits,
      with no leading zero. */
  function Decimal(n: nat): (r: string)
    ensures |r| > 0
    ensures forall i :: 0 <= i < |r| ==> r[i] in Digits
    ensures r[0] == '0' ==> n == 0
    decreases n
  {
    if n < 10 then [DigitChar(n)] else Decimal(n / 10) + [DigitChar(n % 10)]
  }

  /** The value of a string of decimal digits: the inverse of Decimal. */
  function DecimalValue(s: string): nat
    requires forall i :: 0 <= i < |s| ==> s[i] in Digits
    decreases |s|
  {
    if s == [] then 0 else DecimalValue(s[..|s| - 1]) * 10 + DigitValue(s[|s| - 1])
  }

  /** Reading back the digits of an int gives the int. */
  lemma {:induction false} DecimalRoundTrip(n: nat)
    ensures DecimalValue(Decimal(n)) == n
    decreases n
  {
    var s := Decimal(n);
    if n >= 10 {
      DecimalRoundTrip(n / 10);
      assert s[..|s| - 1] == Decimal(n / 10);
      assert DigitValue(s[|s| - 1]) == n % 10;
    } else {
      assert DigitValue(s[0]) == n;
    }
  }

  /** Distinct ints give distinct strings. */
  lemma DecimalInjective(m: nat, n: nat)
    requires Decimal(m) == Decimal(n)
    ensures m == n
  {
    DecimalRoundTrip(m);
    DecimalRoundTrip(n);
  }
}
