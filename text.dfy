/** String helpers shared by the lead forms: JavaScript's `trim()`,
    `replace(/\D/g, "")`, `replace("+", "")` and `includes`, written out over
    `seq<char>` with an explicit ASCII whitespace set. */
module Text {

  datatype Option<+T> = None | Some(value: T)

  /** The whitespace characters `\s` and `trim()` remove, restricted to ASCII:
      space, tab, line feed, vertical tab, form feed, carriage return. */
  predicate IsSpace(c: char) {
    c == ' ' || c == '\t' || c == '\n' || c == '\U{B}' || c == '\U{C}' || c == '\r'
  }

  predicate IsDigit(c: char) {
    '0' <= c <= '9'
  }

  predicate AllDigits(s: string) {
    forall i :: 0 <= i < |s| ==> IsDigit(s[i])
  }

  predicate AllSpace(s: string) {
    forall i :: 0 <= i < |s| ==> IsSpace(s[i])
  }

  /** Where the whitespace that starts at index `i` of `s` ends: every
      character from `i` up to the result is whitespace, and the character at
      the result (if any) is not. */
  function LeadEnd(s: string, i: nat): (k: nat)
    requires i <= |s|
    ensures i <= k <= |s|
    ensures forall j :: i <= j < k ==> IsSpace(s[j])
    ensures k < |s| ==> !IsSpace(s[k])
    decreases |s| - i
  {
    if i < |s| && IsSpace(s[i]) then LeadEnd(s, i + 1) else i
  }

  /** Where the whitespace that ends at index `j` of `s` starts, not going
      below `lo`: every character from the result up to `j` is whitespace,
      and the character before the result (if above `lo`) is not. */
  function TrailStart(s: string, lo: nat, j: nat): (k: nat)
    requires lo <= j <= |s|
    ensures lo <= k <= j
    ensures forall m :: k <= m < j ==> IsSpace(s[m])
    ensures lo < k ==> !IsSpace(s[k - 1])
    decreases j
  {
    if lo < j && IsSpace(s[j - 1]) then TrailStart(s, lo, j - 1) else j
  }

  /** `String.prototype.trim`: the middle slice of `s` between its leading and
      trailing whitespace. */
  function Trim(s: string): (r: string)
    ensures exists a, b :: 0 <= a <= b <= |s| && r == s[a..b] && AllSpace(s[..a]) && AllSpace(s[b..])
    ensures r != [] ==> !IsSpace(r[0]) && !IsSpace(r[|r| - 1])
  {
    var a := LeadEnd(s, 0);
    var b := TrailStart(s, a, |s|);
    assert AllSpace(s[..a]) by {
      assert forall j :: 0 <= j < a ==> s[..a][j] == s[j];
    }
    assert AllSpace(s[b..]) by {
      assert forall j :: 0 <= j < |s| - b ==> s[b..][j] == s[b + j];
    }
    s[a..b]
  }

  /** A trimmed string is blank exactly when the input was all whitespace. */
  lemma TrimBlank(s: string)
    ensures Trim(s) == [] <==> AllSpace(s)
  {
    var a := LeadEnd(s, 0);
    var b := TrailStart(s, a, |s|);
    assert Trim(s) == s[a..b];
    if AllSpace(s) {
      assert a == |s|;
    } else {
      var i :| 0 <= i < |s| && !IsSpace(s[i]);
      assert a <= i < b;
      assert s[a..b][i - a] == s[i];
    }
  }

  /** A string with no whitespace at either end is its own trim. */
  lemma TrimUntouched(s: string)
    requires s != [] && !IsSpace(s[0]) && !IsSpace(s[|s| - 1])
    ensures Trim(s) == s
  {
    assert LeadEnd(s, 0) == 0;
    assert TrailStart(s, 0, |s|) == |s|;
  }

  /** Trimming a trimmed string changes nothing. */
  lemma TrimIdempotent(s: string)
    ensures Trim(Trim(s)) == Trim(s)
  {
    var r := Trim(s);
    if r != [] {
      TrimUntouched(r);
    }
  }

  /** A character that is not whitespace survives trimming. */
  lemma TrimKeeps(s: string, i: nat)
    requires i < |s| && !IsSpace(s[i])
    ensures s[i] in Trim(s)
  {
    var a := LeadEnd(s, 0);
    var b := TrailStart(s, a, |s|);
    assert Trim(s) == s[a..b];
    assert a <= i < b;
    assert s[a..b][i - a] == s[i];
  }

  /** Every character of a trimmed string comes from the input. */
  lemma TrimFrom(s: string, c: char)
    requires c in Trim(s)
    ensures c in s
  {
    var a := LeadEnd(s, 0);
    var b := TrailStart(s, a, |s|);
    assert Trim(s) == s[a..b];
    var i :| 0 <= i < b - a && s[a..b][i] == c;
    assert s[a + i] == c;
  }

  /** `replace(/\D/g, "")`: the digits of `s`, in order. */
  function Digits(s: string): (r: string)
    ensures AllDigits(r)
    ensures |r| <= |s|
  {
    if s == [] then []
    else if IsDigit(s[0]) then [s[0]] + Digits(s[1..])
    else Digits(s[1..])
  }

  /** Digit cleaning distributes over concatenation. */
  lemma {:induction false} DigitsAppend(a: string, b: string)
    ensures Digits(a + b) == Digits(a) + Digits(b)
  {
    if a != [] {
      assert (a + b)[0] == a[0];
      assert (a + b)[1..] == a[1..] + b;
      DigitsAppend(a[1..], b);
    } else {
      assert a + b == b;
    }
  }

  /** A string of digits is its own cleaning; in particular cleaning is idempotent. */
  lemma {:induction false} DigitsOfDigits(s: string)
    requires AllDigits(s)
    ensures Digits(s) == s
  {
    if s != [] {
      DigitsOfDigits(s[1..]);
    }
  }

  lemma DigitsIdempotent(s: string)
    ensures Digits(Digits(s)) == Digits(s)
  {
    DigitsOfDigits(Digits(s));
  }

  /** Every digit of `s` is kept: the cleaning has as many characters as `s` has digits. */
  function DigitCount(s: string): nat {
    if s == [] then 0 else (if IsDigit(s[0]) then 1 else 0) + DigitCount(s[1..])
  }

  lemma {:induction false} DigitsLength(s: string)
    ensures |Digits(s)| == DigitCount(s)
  {
    if s != [] {
      DigitsLength(s[1..]);
    }
  }

  /** Cleaning `"9123 4567"` drops the space. */
  lemma CleanExample()
    ensures Digits("9123 4567") == "91234567"
  {
    var head, tail := "9123", " 4567";
    assert head + tail == "9123 4567";
    DigitsAppend(head, tail);
    DigitsOfDigits(head);
    SpaceDropped();
    assert head + "4567" == "91234567";
  }

  /** The space of the typed number is dropped. */
  lemma SpaceDropped()
    ensures Digits(" 4567") == "4567"
  {
    DigitsOfDigits("4567");
  }

  /** The position of the first `'+'` in `s`. */
  function FirstPlus(s: string): (i: nat)
    requires '+' in s
    ensures i < |s| && s[i] == '+' && '+' !in s[..i]
  {
    if s[0] == '+' then 0
    else
      assert '+' in s[1..];
      var j := FirstPlus(s[1..]);
      assert s[..j + 1] == [s[0]] + s[1..][..j];
      j + 1
  }

  /** `s.replace("+", "")` with a string pattern: only the FIRST `'+'` is
      removed, wherever it stands; a string without one is returned as it is. */
  function RemoveFirstPlus(s: string): (r: string)
    ensures '+' !in s ==> r == s
    ensures '+' in s ==> |r| == |s| - 1
  {
    if s == [] then []
    else if s[0] == '+' then s[1..]
    else
      assert '+' in s ==> '+' in s[1..];
      [s[0]] + RemoveFirstPlus(s[1..])
  }

  /** What is removed is exactly the first `'+'`: the text before it and the
      text after it are kept, in order. */
  lemma {:induction false} RemoveFirstPlusSplit(s: string)
    requires '+' in s
    ensures RemoveFirstPlus(s) == s[..FirstPlus(s)] + s[FirstPlus(s) + 1..]
  {
    if s[0] != '+' {
      var t := s[1..];
      assert '+' in t;
      RemoveFirstPlusSplit(t);
      var j := FirstPlus(t);
      assert FirstPlus(s) == j + 1;
      assert s[..j + 1] == [s[0]] + t[..j];
      assert s[j + 2..] == t[j + 1..];
      assert RemoveFirstPlus(s) == [s[0]] + RemoveFirstPlus(t);
      assert [s[0]] + (t[..j] + t[j + 1..]) == ([s[0]] + t[..j]) + t[j + 1..];
    }
  }

  /** Putting the `"+"` back in front of a code that had one leading `"+"`
      gives back that code. */
  lemma PlusRoundTrip(d: string)
    requires '+' !in d
    ensures RemoveFirstPlus("+" + d) == d
    ensures "+" + RemoveFirstPlus(d) == "+" + d
  {
  }

  /** `haystack.includes(needle)`, by scanning from the left. */
  function Includes(haystack: string, needle: string): (r: bool)
    decreases |haystack|
  {
    (|needle| <= |haystack| && haystack[..|needle|] == needle)
    || (haystack != [] && Includes(haystack[1..], needle))
  }

  /** `needle` occurs in `haystack` starting at offset `k`. */
  predicate OccursAt(haystack: string, needle: string, k: nat) {
    k + |needle| <= |haystack| && haystack[k..k + |needle|] == needle
  }

  /** Scanning agrees with the definition "`needle` occurs at some offset". */
  lemma {:induction false} IncludesOccurs(haystack: string, needle: string)
    ensures Includes(haystack, needle) <==> exists k: nat :: OccursAt(haystack, needle, k)
    decreases |haystack|
  {
    if haystack != [] {
      var t := haystack[1..];
      IncludesOccurs(t, needle);
      if |needle| <= |haystack| && haystack[..|needle|] == needle {
        assert OccursAt(haystack, needle, 0);
      }
      if exists k: nat :: OccursAt(t, needle, k) {
        var k: nat :| OccursAt(t, needle, k);
        assert haystack[k + 1..k + 1 + |needle|] == t[k..k + |needle|];
        assert OccursAt(haystack, needle, k + 1);
      }
      if exists k: nat :: OccursAt(haystack, needle, k) {
        var k: nat :| OccursAt(haystack, needle, k);
        if k > 0 {
          assert t[k - 1..k - 1 + |needle|] == haystack[k..k + |needle|];
          assert OccursAt(t, needle, k - 1);
        } else {
          assert haystack[..|needle|] == haystack[0..|needle|];
        }
      }
    } else if needle == [] {
      assert OccursAt(haystack, needle, 0);
    }
  }

  /** Every string includes the empty string. */
  lemma IncludesEmpty(haystack: string)
    ensures Includes(haystack, "")
  {
  }
}
