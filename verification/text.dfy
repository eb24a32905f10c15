/** String helpers the dashboard takes from Python's `str` and from pandas: ASCII lower-casing,
    substring search, `sep.join(...)` and decimal integer literals. */
module Text {
  import opened Wrappers

  /** ASCII-only model of `str.lower()` on one character. */
  function LowerChar(c: char): (r: char)
    ensures 'A' <= c <= 'Z' ==> 'a' <= r <= 'z' && r as int - c as int == 32
    ensures !('A' <= c <= 'Z') ==> r == c
  {
    if 'A' <= c <= 'Z' then (c as int + 32) as char else c
  }

  function Lower(s: string): (r: string)
    ensures |r| == |s|
    ensures forall k :: 0 <= k < |s| ==> r[k] == LowerChar(s[k])
  {
    seq(|s|, k requires 0 <= k < |s| => LowerChar(s[k]))
  }

  /** `k` occurs in `s` starting at index `i`. */
  ghost predicate OccursAt(s: string, k: string, i: int)
  {
    0 <= i && i + |k| <= |s| && s[i..i + |k|] == k
  }

  /** Python's `k in s` for strings: a left-to-right scan for `k` as a contiguous block. */
  predicate Contains(s: string, k: string)
    decreases |s|
  {
    if |k| > |s| then false
    else s[..|k|] == k || Contains(s[1..], k)
  }

  /** The scan agrees with the positional definition of a substring, in both directions. */
  lemma {:induction false} ContainsIff(s: string, k: string)
    ensures Contains(s, k) <==> exists i :: OccursAt(s, k, i)
    decreases |s|
  {
    if |s| == 0 {
      if |k| == 0 {
        assert OccursAt(s, k, 0);
      } else {
        assert forall i :: !OccursAt(s, k, i);
      }
    } else if |k| <= |s| {
      ContainsIff(s[1..], k);
      if Contains(s, k) {
        if s[..|k|] == k {
          assert OccursAt(s, k, 0);
        } else {
          var i :| OccursAt(s[1..], k, i);
          assert s[1..][i..i + |k|] == s[i + 1..i + 1 + |k|];
          assert OccursAt(s, k, i + 1);
        }
      }
      if exists i :: OccursAt(s, k, i) {
        var i :| OccursAt(s, k, i);
        if i > 0 {
          assert s[1..][i - 1..i - 1 + |k|] == s[i..i + |k|];
          assert OccursAt(s[1..], k, i - 1);
        }
      }
    } else {
      assert forall i :: !OccursAt(s, k, i);
    }
  }

  /** Whatever contains a word also contains each of that word's prefixes. */
  lemma ContainsPrefix(s: string, k: string, p: string)
    requires Contains(s, k)
    requires |p| <= |k| && k[..|p|] == p
    ensures Contains(s, p)
  {
  }

  /** Python's `sep.join(parts)`. */
  function Join(parts: seq<string>, sep: string): (r: string)
    ensures |parts| == 0 ==> r == ""
    ensures |parts| == 1 ==> r == parts[0]
    ensures |parts| > 0 ==> |r| == TotalLength(parts) + |sep| * (|parts| - 1)
    ensures |parts| > 0 ==> r[..|parts[0]|] == parts[0]
    decreases |parts|
  {
    if |parts| == 0 then ""
    else if |parts| == 1 then parts[0]
    else parts[0] + sep + Join(parts[1..], sep)
  }

  /** Joining one more part appends a separator and that part: with the one-part case this
      fixes the joined string completely, parts in order with one separator between neighbours. */
  lemma {:induction false} JoinSnoc(parts: seq<string>, sep: string, p: string)
    requires |parts| > 0
    ensures Join(parts + [p], sep) == Join(parts, sep) + sep + p
    decreases |parts|
  {
    if |parts| == 1 {
      assert (parts + [p])[1..] == [p];
    } else {
      assert (parts + [p])[1..] == parts[1..] + [p];
      JoinSnoc(parts[1..], sep, p);
    }
  }

  function TotalLength(parts: seq<string>): nat
    decreases |parts|
  {
    if |parts| == 0 then 0 else |parts[0]| + TotalLength(parts[1..])
  }

  /** Every joined part appears, as a block, in the joined string. */
  lemma {:induction false} JoinContainsParts(parts: seq<string>, sep: string, k: int)
    requires 0 <= k < |parts|
    ensures Contains(Join(parts, sep), parts[k])
    decreases |parts|
  {
    var r := Join(parts, sep);
    if k == 0 {
      assert OccursAt(r, parts[0], 0);
      ContainsIff(r, parts[0]);
    } else {
      var rest := Join(parts[1..], sep);
      assert r == parts[0] + sep + rest;
      JoinContainsParts(parts[1..], sep, k - 1);
      ContainsIff(rest, parts[k]);
      var i :| OccursAt(rest, parts[k], i);
      var off := |parts[0] + sep|;
      assert r[off + i..off + i + |parts[k]|] == rest[i..i + |parts[k]|];
      assert OccursAt(r, parts[k], off + i);
      ContainsIff(r, parts[k]);
    }
  }

  predicate IsDigit(c: char)
  {
    '0' <= c <= '9'
  }

  predicate AllDigits(s: string)
  {
    forall k :: 0 <= k < |s| ==> IsDigit(s[k])
  }

  /** The value of a string of decimal digits, most significant first. */
  function DigitsValue(s: string): nat
    requires AllDigits(s)
    decreases |s|
  {
    if |s| == 0 then 0
    else 10 * DigitsValue(s[..|s| - 1]) + (s[|s| - 1] as int - '0' as int)
  }

  function DigitChar(d: nat): (c: char)
    requires d < 10
    ensures IsDigit(c) && c as int - '0' as int == d
  {
    (d + '0' as int) as char
  }

  /** Canonical decimal rendering of a natural number. */
  function ShowNat(n: nat): (r: string)
    ensures |r| > 0 && AllDigits(r)
    decreases n
  {
    if n < 10 then [DigitChar(n)] else ShowNat(n / 10) + [DigitChar(n % 10)]
  }

  function ShowInteger(n: int): string
  {
    if n < 0 then "-" + ShowNat(-n) else ShowNat(n)
  }

  /** An integer literal: an optional `+`/`-` sign followed by one or more ASCII digits. */
  function ParseInteger(s: string): (r: Option<int>)
    ensures r.Some? <==> (|s| > 0 && (s[0] == '-' || s[0] == '+') && |s| > 1 && AllDigits(s[1..]))
                         || (|s| > 0 && AllDigits(s))
  {
    if |s| > 0 && (s[0] == '-' || s[0] == '+') then
      var digits := s[1..];
      if |digits| > 0 && AllDigits(digits) then
        var magnitude: int := DigitsValue(digits);
        Some(if s[0] == '-' then -magnitude else magnitude)
      else None
    else if |s| > 0 && AllDigits(s) then Some(DigitsValue(s))
    else None
  }

  lemma {:induction false} ShowNatValue(n: nat)
    ensures DigitsValue(ShowNat(n)) == n
    decreases n
  {
    if n >= 10 {
      var r := ShowNat(n);
      assert r[..|r| - 1] == ShowNat(n / 10);
      ShowNatValue(n / 10);
    }
  }

  /** Rendering an integer and reading it back gives the same integer. */
  lemma ParseShowInteger(n: int)
    ensures ParseInteger(ShowInteger(n)) == Some(n)
  {
    var s := ShowInteger(n);
    if n < 0 {
      var digits := ShowNat(-n);
      assert s == "-" + digits;
      assert s[0] == '-' && s[1..] == digits;
      ShowNatValue(-n);
      assert DigitsValue(digits) == -n;
    } else {
      assert s == ShowNat(n);
      assert IsDigit(s[0]);
      ShowNatValue(n);
    }
  }
}
