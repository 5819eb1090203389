/**
  The parts of Python's `str` that the backup agent relies on: prefix and suffix
  tests, the substring operator `in`, `split`, `lower`, the ordering `<=` used by
  `sort`, and the decimal conversions `int(...)` and `str(...)`.
*/
module Text {

  /** `s.startswith(prefix)` */
  predicate StartsWith(s: string, prefix: string) {
    |prefix| <= |s| && s[..|prefix|] == prefix
  }

  /** `s.endswith(suffix)` */
  predicate EndsWith(s: string, suffix: string) {
    |suffix| <= |s| && s[|s| - |suffix|..] == suffix
  }

  /** `t` occurs in `s` starting at position `i`. */
  predicate MatchAt(s: string, t: string, i: nat) {
    i + |t| <= |s| && s[i..i + |t|] == t
  }

  /** `t in s` */
  predicate Contains(s: string, t: string) {
    exists i: nat | i <= |s| :: MatchAt(s, t, i)
  }

  lemma ContainsWithin(a: string, b: string, c: string, t: string)
    requires Contains(b, t)
    ensures Contains(a + b + c, t)
  {
    var i: nat :| i <= |b| && MatchAt(b, t, i);
    assert (a + b + c)[|a| + i..|a| + i + |t|] == b[i..i + |t|];
    assert MatchAt(a + b + c, t, |a| + i);
  }

  lemma ContainsInSuffix(s: string, j: nat, t: string)
    requires j <= |s| && Contains(s[j..], t)
    ensures Contains(s, t)
  {
    assert s == s[..j] + s[j..] + [];
    ContainsWithin(s[..j], s[j..], [], t);
  }

  // ---------------------------------------------------------------------------
  // str.split(sep)

  /**
    Python's `s.split(sep)` for a non-empty separator: a left-to-right scan that
    cuts at every non-overlapping occurrence of `sep`; `cur` is the piece being
    accumulated.
  */
  function SplitFrom(s: string, sep: string, cur: string): (parts: seq<string>)
    requires |sep| > 0
    ensures |parts| > 0
    decreases |s|
  {
    if |s| == 0 then [cur]
    else if StartsWith(s, sep) then [cur] + SplitFrom(s[|sep|..], sep, "")
    else SplitFrom(s[1..], sep, cur + [s[0]])
  }

  function Split(s: string, sep: string): (parts: seq<string>)
    requires |sep| > 0
    ensures |parts| > 0
  {
    SplitFrom(s, sep, "")
  }

  /** Gluing the pieces back together with `sep` gives the original text. */
  function Join(parts: seq<string>, sep: string): string
    decreases |parts|
  {
    if |parts| == 0 then "" else if |parts| == 1 then parts[0] else parts[0] + sep + Join(parts[1..], sep)
  }

  lemma {:induction false} SplitFromJoin(s: string, sep: string, cur: string)
    requires |sep| > 0
    ensures Join(SplitFrom(s, sep, cur), sep) == cur + s
    decreases |s|
  {
    if |s| == 0 {
    } else if StartsWith(s, sep) {
      var rest := SplitFrom(s[|sep|..], sep, "");
      SplitFromJoin(s[|sep|..], sep, "");
      assert ([cur] + rest)[1..] == rest;
      assert s == sep + s[|sep|..];
    } else {
      SplitFromJoin(s[1..], sep, cur + [s[0]]);
      assert cur + [s[0]] + s[1..] == cur + s;
    }
  }

  /** `sep.join(s.split(sep)) == s` */
  lemma SplitJoin(s: string, sep: string)
    requires |sep| > 0
    ensures Join(Split(s, sep), sep) == s
  {
    SplitFromJoin(s, sep, "");
  }

  /** The scan passes over a stretch of text in which no separator starts. */
  lemma {:induction false} SplitSkip(s: string, sep: string, cur: string, k: nat)
    requires |sep| > 0 && k <= |s|
    requires forall i: nat :: i < k ==> !MatchAt(s, sep, i)
    ensures SplitFrom(s, sep, cur) == SplitFrom(s[k..], sep, cur + s[..k])
    decreases k
  {
    if k == 0 {
      assert s[0..] == s && cur + s[..0] == cur;
    } else {
      assert !MatchAt(s, sep, 0);
      forall i: nat | i < k - 1
        ensures !MatchAt(s[1..], sep, i)
      {
        assert !MatchAt(s, sep, i + 1);
        if i + |sep| <= |s[1..]| {
          assert s[1..][i..i + |sep|] == s[i + 1..i + 1 + |sep|];
        }
      }
      SplitSkip(s[1..], sep, cur + [s[0]], k - 1);
      assert s[1..][k - 1..] == s[k..];
      assert cur + [s[0]] + s[1..][..k - 1] == cur + s[..k];
    }
  }

  /** A field in which no separator starts, not even one straddling into the following separator. */
  predicate Delimited(f: string, sep: string) {
    forall i: nat :: i < |f| ==> !MatchAt(f + sep, sep, i)
  }

  lemma SplitField(f: string, sep: string, r: string)
    requires |sep| > 0 && Delimited(f, sep)
    ensures SplitFrom(f + sep + r, sep, "") == [f] + SplitFrom(r, sep, "")
  {
    var s := f + sep + r;
    forall i: nat | i < |f|
      ensures !MatchAt(s, sep, i)
    {
      assert !MatchAt(f + sep, sep, i);
      assert s[i..i + |sep|] == (f + sep)[i..i + |sep|];
    }
    SplitSkip(s, sep, "", |f|);
    var t := s[|f|..];
    assert t == sep + r;
    assert "" + s[..|f|] == f;
    assert t[..|sep|] == sep && StartsWith(t, sep);
    assert t[|sep|..] == r;
    assert SplitFrom(t, sep, f) == [f] + SplitFrom(r, sep, "");
  }

  lemma SplitLastField(f: string, sep: string)
    requires |sep| > 0
    requires forall i: nat :: i < |f| ==> !MatchAt(f, sep, i)
    ensures SplitFrom(f, sep, "") == [f]
  {
    SplitSkip(f, sep, "", |f|);
    assert SplitFrom(f, sep, "") == SplitFrom(f[|f|..], sep, "" + f[..|f|]);
    assert f[|f|..] == [];
    assert "" + f[..|f|] == f;
  }

  /** For the separator `__`: no `__` inside and no trailing `_` make a field split cleanly. */
  lemma DoubleUnderscoreDelimited(f: string)
    requires !Contains(f, "__") && !EndsWith(f, "_")
    ensures Delimited(f, "__")
  {
    forall i: nat | i < |f|
      ensures !MatchAt(f + "__", "__", i)
    {
      if i + 2 <= |f| {
        assert (f + "__")[i..i + 2] == f[i..i + 2];
        assert !MatchAt(f, "__", i);
      } else {
        assert i == |f| - 1 && (f + "__")[i] == f[i];
        assert f[i..] == [f[i]];
      }
    }
  }

  lemma NoDoubleUnderscoreAt(f: string)
    requires !Contains(f, "__")
    ensures forall i: nat :: i < |f| ==> !MatchAt(f, "__", i)
  {
  }

  /** The first piece is `cur` followed by a prefix of the scanned text. */
  lemma {:induction false} SplitFirstPiece(s: string, sep: string, cur: string)
    requires |sep| > 0
    ensures exists m: nat :: m <= |s| && SplitFrom(s, sep, cur)[0] == cur + s[..m]
    decreases |s|
  {
    if |s| == 0 {
      assert SplitFrom(s, sep, cur)[0] == cur + s[..0];
    } else if StartsWith(s, sep) {
      assert SplitFrom(s, sep, cur)[0] == cur + s[..0];
    } else {
      SplitFirstPiece(s[1..], sep, cur + [s[0]]);
      var m: nat :| m <= |s[1..]| && SplitFrom(s[1..], sep, cur + [s[0]])[0] == cur + [s[0]] + s[1..][..m];
      assert cur + [s[0]] + s[1..][..m] == cur + s[..m + 1];
    }
  }

  /** The first piece is `cur` followed by the scanned text up to its first separator, or all of it when there is none. */
  lemma {:induction false} SplitFirstPieceUpToSeparator(s: string, sep: string, cur: string) returns (m: nat)
    requires |sep| > 0
    ensures m <= |s| && SplitFrom(s, sep, cur)[0] == cur + s[..m]
    ensures forall i: nat :: i < m ==> !MatchAt(s, sep, i)
    ensures m == |s| || MatchAt(s, sep, m)
    decreases |s|
  {
    if |s| == 0 || StartsWith(s, sep) {
      m := 0;
      assert cur + s[..0] == cur;
    } else {
      var m' := SplitFirstPieceUpToSeparator(s[1..], sep, cur + [s[0]]);
      m := m' + 1;
      assert cur + [s[0]] + s[1..][..m'] == cur + s[..m];
      forall i: nat | i < m ensures !MatchAt(s, sep, i) {
        if i > 0 {
          assert !MatchAt(s[1..], sep, i - 1);
          if i + |sep| <= |s| {
            assert s[1..][i - 1..i - 1 + |sep|] == s[i..i + |sep|];
          }
        }
      }
      if m' < |s[1..]| {
        assert s[1..][m'..m' + |sep|] == s[m..m + |sep|];
      }
    }
  }

  /** Every piece after the first was preceded by the separator in the scanned text. */
  lemma {:induction false} SplitPiecePreceded(s: string, sep: string, cur: string, k: nat)
    requires |sep| > 0 && 1 <= k < |SplitFrom(s, sep, cur)|
    ensures Contains(s, sep + SplitFrom(s, sep, cur)[k])
    decreases |s|
  {
    if |s| > 0 && StartsWith(s, sep) {
      var tail := s[|sep|..];
      var rest := SplitFrom(tail, sep, "");
      assert SplitFrom(s, sep, cur) == [cur] + rest;
      if k == 1 {
        SplitFirstPiece(tail, sep, "");
        var m: nat :| m <= |tail| && rest[0] == "" + tail[..m];
        assert s[..|sep| + m] == sep + rest[0];
        assert MatchAt(s, sep + rest[0], 0);
      } else {
        SplitPiecePreceded(tail, sep, "", k - 1);
        ContainsInSuffix(s, |sep|, sep + rest[k - 1]);
      }
    } else if |s| > 0 {
      SplitPiecePreceded(s[1..], sep, cur + [s[0]], k);
      ContainsInSuffix(s, 1, sep + SplitFrom(s, sep, cur)[k]);
    }
  }

  // ---------------------------------------------------------------------------
  // str.lower(), restricted to ASCII letters

  function LowerChar(c: char): char {
    if 'A' <= c <= 'Z' then (c as int + 32) as char else c
  }

  function AsciiLower(s: string): (r: string)
    ensures |r| == |s|
    ensures forall i :: 0 <= i < |s| ==> r[i] == LowerChar(s[i])
    decreases |s|
  {
    if |s| == 0 then "" else [LowerChar(s[0])] + AsciiLower(s[1..])
  }

  // ---------------------------------------------------------------------------
  // String ordering (Python compares code point by code point; a proper prefix sorts first)

  predicate LexLe(a: string, b: string)
    decreases |a|
  {
    |a| == 0 || (|b| > 0 && (a[0] < b[0] || (a[0] == b[0] && LexLe(a[1..], b[1..]))))
  }

  lemma {:induction false} LexLeTotal(a: string, b: string)
    ensures LexLe(a, b) || LexLe(b, a)
    decreases |a|
  {
    if |a| > 0 && |b| > 0 && a[0] == b[0] {
      LexLeTotal(a[1..], b[1..]);
    }
  }

  lemma {:induction false} LexLeTrans(a: string, b: string, c: string)
    requires LexLe(a, b) && LexLe(b, c)
    ensures LexLe(a, c)
    decreases |a|
  {
    if |a| > 0 && |b| > 0 && |c| > 0 && a[0] == b[0] && b[0] == c[0] {
      LexLeTrans(a[1..], b[1..], c[1..]);
    }
  }

  // ---------------------------------------------------------------------------
  // Decimal digits: `int(digits)` and `str(n)`

  predicate IsDigit(c: char) {
    '0' <= c <= '9'
  }

  predicate AllDigits(ds: string) {
    forall i :: 0 <= i < |ds| ==> IsDigit(ds[i])
  }

  /** The value of a string of decimal digits, most significant first, as `int()` reads it. */
  function DecimalValue(ds: string): (v: int)
    ensures AllDigits(ds) ==> v >= 0
    decreases |ds|
  {
    if |ds| == 0 then 0
    else 10 * DecimalValue(ds[..|ds| - 1]) + (ds[|ds| - 1] as int - '0' as int)
  }

  function DigitChar(d: nat): char
    requires d < 10
  {
    ('0' as int + d) as char
  }

  function DecimalString(n: nat): (r: string)
    ensures |r| > 0 && AllDigits(r)
  {
    if n < 10 then [DigitChar(n)] else DecimalString(n / 10) + [DigitChar(n % 10)]
  }

  /** `int(str(n)) == n` */
  lemma {:induction false} DecimalRoundTrip(n: nat)
    ensures DecimalValue(DecimalString(n)) == n
  {
    if n >= 10 {
      var s := DecimalString(n);
      assert s[..|s| - 1] == DecimalString(n / 10);
      DecimalRoundTrip(n / 10);
    }
  }
}
