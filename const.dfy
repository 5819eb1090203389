/**
  Constants of the integration: the tags that carry a backup's identity in its
  file name, and the parser that extracts the drive and folder numbers from a
  kDrive folder URL with the regular expression
  `/drive/(?P<drive_id>\d+)/files/(?P<folder_id>\d+)(?:/|$)` used with `search`.
*/
module Const {
  import opened Wrappers
  import opened Text

  const ID_TAG: string := "__id-"
  const VER_TAG: string := "__ver-"
  const PROT_TAG: string := "__prot-"

  // ---------------------------------------------------------------------------
  // str.strip(c)

  function StripLeading(s: string, c: char): (r: string)
    ensures |r| > 0 ==> r[0] != c
    ensures EndsWith(s, r)
    ensures forall i :: 0 <= i < |s| - |r| ==> s[i] == c
    decreases |s|
  {
    if |s| > 0 && s[0] == c then
      var r := StripLeading(s[1..], c);
      assert s[|s| - |r|..] == s[1..][|s[1..]| - |r|..];
      assert forall i :: 1 <= i < |s| - |r| ==> s[i] == s[1..][i - 1];
      r
    else s
  }

  function StripTrailing(s: string, c: char): (r: string)
    ensures |r| > 0 ==> r[|r| - 1] != c
    ensures StartsWith(s, r)
    ensures forall i :: |r| <= i < |s| ==> s[i] == c
    decreases |s|
  {
    if |s| > 0 && s[|s| - 1] == c then
      var r := StripTrailing(s[..|s| - 1], c);
      assert s[..|r|] == s[..|s| - 1][..|r|];
      assert forall i :: |r| <= i < |s| - 1 ==> s[i] == s[..|s| - 1][i];
      r
    else s
  }

  /** `s.strip(c)`: drops every leading and every trailing `c`. */
  function Strip(s: string, c: char): (r: string)
    ensures |r| > 0 ==> r[0] != c && r[|r| - 1] != c
    ensures exists i :: StrippedAt(s, c, i, r)
  {
    var r := StripTrailing(StripLeading(s, c), c);
    StripIsSlice(s, c);
    r
  }

  /** `r` is the slice of `s` from `i` on, and every character of `s` outside it is `c`. */
  predicate StrippedAt(s: string, c: char, i: int, r: string) {
    0 <= i <= |s| - |r| && r == s[i..i + |r|] &&
    (forall k :: 0 <= k < i ==> s[k] == c) && (forall k :: i + |r| <= k < |s| ==> s[k] == c)
  }

  lemma StripIsSlice(s: string, c: char)
    ensures StrippedAt(s, c, |s| - |StripLeading(s, c)|, StripTrailing(StripLeading(s, c), c))
  {
    var lead := StripLeading(s, c);
    var r := StripTrailing(lead, c);
    var i := |s| - |lead|;
    assert lead == s[i..];
    assert r == lead[..|r|];
    forall k | i + |r| <= k < |s|
      ensures s[k] == c
    {
      assert s[k] == lead[k - i];
    }
  }

  /** With the underscores stripped, the tags are exactly the prefixes the filename parser tests for. */
  lemma TagsStripToPrefixes()
    ensures Strip(ID_TAG, '_') == "id-"
    ensures Strip(VER_TAG, '_') == "ver-"
    ensures Strip(PROT_TAG, '_') == "prot-"
  {
    StripTwoUnderscores("id-");
    StripTwoUnderscores("ver-");
    StripTwoUnderscores("prot-");
    assert ID_TAG == "__" + "id-" && VER_TAG == "__" + "ver-" && PROT_TAG == "__" + "prot-";
  }

  lemma StripTwoUnderscores(t: string)
    requires |t| > 0 && t[0] != '_' && t[|t| - 1] != '_'
    ensures Strip("__" + t, '_') == t
  {
    var s := "__" + t;
    assert s[1..] == "_" + t;
    assert ("_" + t)[1..] == t;
    assert StripLeading(s, '_') == StripLeading("_" + t, '_') == StripLeading(t, '_') == t;
  }

  // ---------------------------------------------------------------------------
  // parse_kdrive_folder_url

  datatype UrlError = UnrecognizedFolderUrl

  const DRIVE_SEGMENT: string := "/drive/"
  const FILES_SEGMENT: string := "/files/"

  /** Length of the run of decimal digits that starts at `j`; it stops at a non-digit or at the end. */
  function DigitRun(s: string, j: nat): (k: nat)
    requires j <= |s|
    ensures j + k <= |s|
    ensures AllDigits(s[j..j + k])
    ensures j + k < |s| ==> !IsDigit(s[j + k])
    decreases |s| - j
  {
    if j < |s| && IsDigit(s[j]) then
      var k := DigitRun(s, j + 1);
      assert s[j..j + 1 + k] == [s[j]] + s[j + 1..j + 1 + k];
      1 + k
    else 0
  }

  /** `(?:/|$)` at position `e`: a slash, the end, or a final newline (Python's `$`). */
  predicate PathEnd(s: string, e: nat) {
    e == |s| || (e < |s| && s[e] == '/') || (e + 1 == |s| && s[e] == '\n')
  }

  /**
    The regular expression's matching relation at position `i`, with `dk` and `fk`
    the lengths taken by the two `\d+` groups.
  */
  predicate RegexMatch(s: string, i: nat, dk: nat, fk: nat) {
    var d := i + |DRIVE_SEGMENT|;
    var f := d + dk + |FILES_SEGMENT|;
    && MatchAt(s, DRIVE_SEGMENT, i)
    && dk > 0 && d + dk <= |s| && AllDigits(s[d..d + dk])
    && MatchAt(s, FILES_SEGMENT, d + dk)
    && fk > 0 && f + fk <= |s| && AllDigits(s[f..f + fk])
    && PathEnd(s, f + fk)
  }

  /** The two groups of such a match, converted with `int()`. */
  function Groups(s: string, i: nat, dk: nat, fk: nat): (int, int)
    requires i + |DRIVE_SEGMENT| + dk + |FILES_SEGMENT| + fk <= |s|
  {
    var d := i + |DRIVE_SEGMENT|;
    var f := d + dk + |FILES_SEGMENT|;
    (DecimalValue(s[d..d + dk]), DecimalValue(s[f..f + fk]))
  }

  /** The greedy length of the drive group at `i`. */
  function DriveRun(s: string, i: nat): nat {
    var d := i + |DRIVE_SEGMENT|;
    if d <= |s| then DigitRun(s, d) else 0
  }

  /** The greedy length of the folder group at `i`. */
  function FolderRun(s: string, i: nat): nat {
    var f := i + |DRIVE_SEGMENT| + DriveRun(s, i) + |FILES_SEGMENT|;
    if f <= |s| then DigitRun(s, f) else 0
  }

  /** The groups of a match starting exactly at `i`, trying the greedy group lengths. */
  function MatchFolderAt(s: string, i: nat): (r: Option<(int, int)>)
    ensures r.Some? ==> MatchAt(s, DRIVE_SEGMENT, i) && r.value.0 >= 0 && r.value.1 >= 0
  {
    var dk, fk := DriveRun(s, i), FolderRun(s, i);
    if RegexMatch(s, i, dk, fk) then Some(Groups(s, i, dk, fk)) else None
  }

  /** No other group lengths match: a shorter run is followed by a digit, which neither `/files/` nor `(?:/|$)` accepts. */
  lemma RegexRunsAreGreedy(s: string, i: nat, dk: nat, fk: nat)
    requires RegexMatch(s, i, dk, fk)
    ensures dk == DriveRun(s, i) && fk == FolderRun(s, i)
  {
    var d := i + |DRIVE_SEGMENT|;
    var f := d + dk + |FILES_SEGMENT|;
    assert s[d + dk] == '/';
    RunIsLongest(s, d, dk);
    RunIsLongest(s, f, fk);
  }

  /** Every match of the regular expression at `i` is the one `MatchFolderAt` reports. */
  lemma RegexMatchIsFound(s: string, i: nat, dk: nat, fk: nat)
    requires RegexMatch(s, i, dk, fk)
    ensures MatchFolderAt(s, i) == Some(Groups(s, i, dk, fk))
  {
    RegexRunsAreGreedy(s, i, dk, fk);
  }

  /** A position matches exactly when the regular expression matches there with some group lengths. */
  lemma MatchFolderAtIff(s: string, i: nat)
    ensures MatchFolderAt(s, i).Some? <==> exists dk: nat, fk: nat :: RegexMatch(s, i, dk, fk)
  {
    if exists dk: nat, fk: nat :: RegexMatch(s, i, dk, fk) {
      var dk: nat, fk: nat :| RegexMatch(s, i, dk, fk);
      RegexMatchIsFound(s, i, dk, fk);
    }
  }

  /** A digit run of length `k` followed by a non-digit or the end is the longest run. */
  lemma RunIsLongest(s: string, j: nat, k: nat)
    requires j + k <= |s| && AllDigits(s[j..j + k])
    requires j + k < |s| ==> !IsDigit(s[j + k])
    ensures DigitRun(s, j) == k
  {
  }

  /** `KDRIVE_FOLDER_RE.search(s)` from position `i` on: the leftmost position that matches. */
  function SearchFrom(s: string, i: nat): (r: Option<(int, int)>)
    requires i <= |s|
    ensures r.Some? ==> exists k: nat :: i <= k <= |s| && MatchFolderAt(s, k) == r
    ensures r.None? ==> forall k: nat :: i <= k <= |s| ==> MatchFolderAt(s, k).None?
    decreases |s| - i
  {
    var m := MatchFolderAt(s, i);
    if m.Some? then m
    else if i == |s| then None
    else SearchFrom(s, i + 1)
  }

  /** `parse_kdrive_folder_url`: the drive and folder numbers, or `ValueError`. */
  function ParseFolderUrl(url: string): (r: Result<(int, int), UrlError>)
    ensures r.Ok? ==> exists k: nat :: k <= |url| && MatchFolderAt(url, k) == Some(r.value)
    ensures r.Err? <==> forall k: nat :: k <= |url| ==> MatchFolderAt(url, k).None?
  {
    match SearchFrom(url, 0)
    case Some(ids) => Ok(ids)
    case None => Err(UnrecognizedFolderUrl)
  }

  /** `k` is the first position from `i` on where the pattern matches, with groups `ids`. */
  predicate FirstMatchFrom(s: string, i: nat, k: nat, ids: (int, int)) {
    i <= k <= |s| && MatchFolderAt(s, k) == Some(ids) && forall j: nat :: i <= j < k ==> MatchFolderAt(s, j).None?
  }

  /** `search` finds the leftmost matching position; nothing earlier, and a failed earlier attempt does not hide a later match. */
  lemma {:induction false} SearchFromLeftmost(s: string, i: nat, ids: (int, int))
    requires i <= |s|
    ensures SearchFrom(s, i) == Some(ids) <==> exists k: nat :: FirstMatchFrom(s, i, k, ids)
    decreases |s| - i
  {
    if MatchFolderAt(s, i).None? && i < |s| {
      SearchFromLeftmost(s, i + 1, ids);
      assert SearchFrom(s, i) == SearchFrom(s, i + 1);
      FirstMatchStep(s, i, i + 1, ids);
    } else if MatchFolderAt(s, i).Some? {
      FirstMatchHere(s, i, ids);
    }
  }

  /** Past a position that does not match, the first match is the same. */
  lemma FirstMatchStep(s: string, i: nat, next: nat, ids: (int, int))
    requires i < |s| && next == i + 1 && MatchFolderAt(s, i).None?
    ensures (exists k: nat :: FirstMatchFrom(s, i, k, ids)) <==> (exists k: nat :: FirstMatchFrom(s, next, k, ids))
  {
    if exists k: nat :: FirstMatchFrom(s, i, k, ids) {
      var k: nat :| FirstMatchFrom(s, i, k, ids);
      FirstMatchLater(s, i, next, k, ids);
    }
    if exists k: nat :: FirstMatchFrom(s, next, k, ids) {
      var k: nat :| FirstMatchFrom(s, next, k, ids);
      FirstMatchEarlier(s, i, next, k, ids);
    }
  }

  lemma FirstMatchLater(s: string, i: nat, next: nat, k: nat, ids: (int, int))
    requires next == i + 1 && MatchFolderAt(s, i).None? && FirstMatchFrom(s, i, k, ids)
    ensures FirstMatchFrom(s, next, k, ids)
  {
  }

  lemma FirstMatchEarlier(s: string, i: nat, next: nat, k: nat, ids: (int, int))
    requires next == i + 1 && MatchFolderAt(s, i).None? && FirstMatchFrom(s, next, k, ids)
    ensures FirstMatchFrom(s, i, k, ids)
  {
    forall j: nat | i <= j < k ensures MatchFolderAt(s, j).None? {
      if j != i {
        assert next <= j < k;
      }
    }
  }

  /** At a matching position the first match is that one. */
  lemma FirstMatchHere(s: string, i: nat, ids: (int, int))
    requires i <= |s| && MatchFolderAt(s, i).Some?
    ensures (exists k: nat :: FirstMatchFrom(s, i, k, ids)) <==> MatchFolderAt(s, i) == Some(ids)
  {
    if exists k: nat :: FirstMatchFrom(s, i, k, ids) {
      var k: nat :| FirstMatchFrom(s, i, k, ids);
      assert k == i;
    }
    if MatchFolderAt(s, i) == Some(ids) {
      assert FirstMatchFrom(s, i, i, ids);
    }
  }

  /** The parser returns the groups of the leftmost match, and raises exactly when no position matches. */
  lemma ParseFolderUrlLeftmost(url: string, ids: (int, int))
    ensures ParseFolderUrl(url) == Ok(ids) <==> exists k: nat :: FirstMatchFrom(url, 0, k, ids)
    ensures ParseFolderUrl(url).Err? <==> forall k: nat :: k <= |url| ==> MatchFolderAt(url, k).None?
  {
    SearchFromLeftmost(url, 0, ids);
    if ParseFolderUrl(url).Err? {
      forall k: nat | k <= |url|
        ensures MatchFolderAt(url, k).None?
      {
        if MatchFolderAt(url, k).Some? {
          NoMatchBefore(url, k);
        }
      }
    } else {
      var v := ParseFolderUrl(url).value;
      SearchFromLeftmost(url, 0, v);
    }
  }

  /** If some position matches, the search from the start finds something. */
  lemma {:induction false} NoMatchBefore(s: string, k: nat)
    requires k <= |s| && MatchFolderAt(s, k).Some?
    ensures SearchFrom(s, 0).Some?
  {
    var i := k;
    while i > 0
      invariant 0 <= i <= k
      invariant SearchFrom(s, i).Some?
      decreases i
    {
      i := i - 1;
    }
  }

  /** A prefix free of `/drive/` cannot hold the start of a match ahead of the one that follows it. */
  lemma PrefixHidesNoMatch(prefix: string, rest: string, j: nat)
    requires !Contains(prefix, DRIVE_SEGMENT) && j < |prefix|
    ensures MatchFolderAt(prefix + DRIVE_SEGMENT + rest, j).None?
  {
    var s := prefix + DRIVE_SEGMENT + rest;
    if j + |DRIVE_SEGMENT| <= |prefix| {
      assert !MatchAt(prefix, DRIVE_SEGMENT, j);
      assert s[j..j + |DRIVE_SEGMENT|] == prefix[j..j + |DRIVE_SEGMENT|];
    } else if MatchAt(s, DRIVE_SEGMENT, j) {
      // the occurrence straddles the end of the prefix: only `/drive` + `/drive/` can do that,
      // and then the character after it is `d`, not a digit
      var l := |prefix| - j;
      assert s[|prefix|] == '/';
      assert s[j + l] == DRIVE_SEGMENT[l];
      assert l == 6;
      assert s[j + |DRIVE_SEGMENT|] == 'd';
      assert DriveRun(s, j) == 0;
    }
  }

  /** The first matching position decides the result of the parser. */
  lemma FirstMatchIsParsed(s: string, k: nat)
    requires k <= |s| && MatchFolderAt(s, k).Some?
    requires forall j: nat :: j < k ==> MatchFolderAt(s, j).None?
    ensures ParseFolderUrl(s) == Ok(MatchFolderAt(s, k).value)
  {
    var ids := MatchFolderAt(s, k).value;
    assert FirstMatchFrom(s, 0, k, ids);
    SearchFromLeftmost(s, 0, ids);
  }

  /** The pieces of `prefix + "/drive/" + ds + "/files/" + fs + rest`, one slice each. */
  lemma UrlPieces(prefix: string, ds: string, fs: string, rest: string)
    ensures var url := prefix + DRIVE_SEGMENT + ds + FILES_SEGMENT + fs + rest;
            var d := |prefix| + |DRIVE_SEGMENT|;
            var f := d + |ds| + |FILES_SEGMENT|;
            && url[|prefix|..d] == DRIVE_SEGMENT
            && url[d..d + |ds|] == ds
            && url[d + |ds|..f] == FILES_SEGMENT
            && url[f..f + |fs|] == fs
            && url[f + |fs|..] == rest
  {
    var u2 := prefix + DRIVE_SEGMENT;
    var u3 := u2 + ds;
    var u4 := u3 + FILES_SEGMENT;
    var u5 := u4 + fs;
    var url := u5 + rest;
    SliceOfLeft(prefix, DRIVE_SEGMENT, u2, ds, u3, FILES_SEGMENT, u4, fs, u5, rest, |prefix|, |u2|);
    SliceOfLeft(u2, ds, u3, FILES_SEGMENT, u4, fs, u5, rest, url, [], |u2|, |u3|);
    assert u5 + rest + [] == url;
    assert url[|u3|..|u4|] == FILES_SEGMENT by {
      assert url[|u3|..|u4|] == u5[|u3|..|u4|] == u4[|u3|..|u4|];
    }
    assert url[|u4|..|u5|] == fs by {
      assert url[|u4|..|u5|] == u5[|u4|..|u5|];
    }
  }

  /** A slice of the text added at one step survives the later concatenations. */
  lemma SliceOfLeft(a: string, b: string, ab: string, c: string, abc: string, d: string,
                    abcd: string, e: string, abcde: string, g: string, lo: nat, hi: nat)
    requires ab == a + b && abc == ab + c && abcd == abc + d && abcde == abcd + e
    requires lo == |a| && hi == |ab|
    ensures (abcde + g)[lo..hi] == b
  {
    assert (abcde + g)[lo..hi] == abcde[lo..hi] == abcd[lo..hi] == abc[lo..hi] == ab[lo..hi];
  }

  /** Slices that spell out a match give a match with those groups. */
  lemma MatchFromPieces(url: string, i: nat, ds: string, fs: string)
    requires |ds| > 0 && AllDigits(ds) && |fs| > 0 && AllDigits(fs)
    requires i + |DRIVE_SEGMENT| + |ds| + |FILES_SEGMENT| + |fs| <= |url|
    requires url[i..i + |DRIVE_SEGMENT|] == DRIVE_SEGMENT
    requires url[i + |DRIVE_SEGMENT|..i + |DRIVE_SEGMENT| + |ds|] == ds
    requires url[i + |DRIVE_SEGMENT| + |ds|..i + |DRIVE_SEGMENT| + |ds| + |FILES_SEGMENT|] == FILES_SEGMENT
    requires url[i + |DRIVE_SEGMENT| + |ds| + |FILES_SEGMENT|..i + |DRIVE_SEGMENT| + |ds| + |FILES_SEGMENT| + |fs|] == fs
    requires PathEnd(url, i + |DRIVE_SEGMENT| + |ds| + |FILES_SEGMENT| + |fs|)
    ensures MatchFolderAt(url, i) == Some((DecimalValue(ds), DecimalValue(fs)))
  {
    assert RegexMatch(url, i, |ds|, |fs|);
    RegexMatchIsFound(url, i, |ds|, |fs|);
  }

  function FolderUrl(prefix: string, d: nat, f: nat, rest: string): string {
    prefix + DRIVE_SEGMENT + DecimalString(d) + FILES_SEGMENT + DecimalString(f) + rest
  }

  lemma FolderUrlMatchesAfterPrefix(prefix: string, d: nat, f: nat, rest: string)
    requires rest == [] || rest[0] == '/'
    ensures MatchFolderAt(FolderUrl(prefix, d, f, rest), |prefix|) == Some((d, f))
  {
    var ds, fs := DecimalString(d), DecimalString(f);
    var url := prefix + DRIVE_SEGMENT + ds + FILES_SEGMENT + fs + rest;
    var i := |prefix|;
    UrlPieces(prefix, ds, fs, rest);
    var e := i + |DRIVE_SEGMENT| + |ds| + |FILES_SEGMENT| + |fs|;
    assert e < |url| ==> url[e] == url[e..][0] == rest[0];
    MatchFromPieces(url, i, ds, fs);
    DecimalRoundTrip(d);
    DecimalRoundTrip(f);
  }

  lemma FolderUrlNoEarlierMatch(prefix: string, d: nat, f: nat, rest: string)
    requires !Contains(prefix, DRIVE_SEGMENT)
    ensures forall j: nat :: j < |prefix| ==> MatchFolderAt(FolderUrl(prefix, d, f, rest), j).None?
  {
    var tail := DecimalString(d) + FILES_SEGMENT + DecimalString(f) + rest;
    assert FolderUrl(prefix, d, f, rest) == prefix + DRIVE_SEGMENT + tail;
    forall j: nat | j < |prefix|
      ensures MatchFolderAt(prefix + DRIVE_SEGMENT + tail, j).None?
    {
      PrefixHidesNoMatch(prefix, tail, j);
    }
  }

  /**
    Parsing `prefix + "/drive/" + str(d) + "/files/" + str(f)`, optionally followed by
    `/...`, gives `(d, f)` whenever the prefix holds no `/drive/`.
  */
  lemma FolderUrlRoundTrip(prefix: string, d: nat, f: nat, rest: string)
    requires !Contains(prefix, DRIVE_SEGMENT)
    requires rest == [] || rest[0] == '/'
    ensures ParseFolderUrl(FolderUrl(prefix, d, f, rest)) == Ok((d, f))
  {
    FolderUrlMatchesAfterPrefix(prefix, d, f, rest);
    FolderUrlNoEarlierMatch(prefix, d, f, rest);
    FirstMatchIsParsed(FolderUrl(prefix, d, f, rest), |prefix|);
  }
}
