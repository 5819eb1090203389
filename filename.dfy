/**
  The backup file-name codec of the kDrive backup agent: `make_filename` writes a
  backup's id, Home Assistant version and protected flag into the name of its
  `.tar` archive, and `try_parse_filename` reads them back.

  Format: `<stem>__id-<backup_id>__ver-<version>__prot-<true|false>.tar`.
*/
module BackupFilename {
  import opened Wrappers
  import opened Text
  import opened Const

  const TAR: string := ".tar"

  /** The fields of the host's backup record that the codec uses. */
  datatype Backup = Backup(
    backupId: string,
    name: string,
    date: string,             // the creation time, as the host renders it
    version: Option<string>,  // `homeassistant_version`; absent or empty means unknown
    protected: bool,
    size: int)

  /** What `try_parse_filename` extracts; `version` and `protected` are `None` when their tag is missing. */
  datatype Meta = Meta(
    nameHint: string,
    backupId: string,
    version: Option<string>,
    protected: Option<bool>)

  /** `getattr(backup, "homeassistant_version", "") or "unknown"` */
  function VersionText(v: Option<string>): (r: string)
    ensures r != ""
    ensures v.Some? && v.value != "" ==> r == v.value
    ensures !(v.Some? && v.value != "") ==> r == "unknown"
  {
    if v.Some? && v.value != "" then v.value else "unknown"
  }

  /** The suggested base name without a trailing `.tar`. */
  function TarStem(base: string): (r: string)
    ensures StartsWith(base, r)
    ensures !EndsWith(base, TAR) ==> r == base
    ensures EndsWith(base, TAR) ==> r + TAR == base
  {
    if EndsWith(base, TAR) then base[..|base| - |TAR|] else base
  }

  /**
    `make_filename`: `suggest` stands for the host's `suggested_filename_from_name_date`.
    The name always ends in `.tar` and always contains `__id-<backup_id>`.
  */
  function MakeFilename(b: Backup, suggest: (string, string) -> string): (r: string)
    ensures EndsWith(r, TAR)
    ensures Contains(r, ID_TAG + b.backupId)
  {
    var stem := TarStem(suggest(b.name, b.date));
    var prot := if b.protected then "true" else "false";
    WrittenNameShape(stem, b.backupId, VersionText(b.version), prot);
    Composed(stem, b.backupId, VersionText(b.version), prot) + TAR
  }

  /** A written name ends in `.tar` and carries `__id-` followed by any prefix of its id, right after the stem. */
  lemma WrittenNameShape(stem: string, id: string, ver: string, prot: string)
    ensures EndsWith(Composed(stem, id, ver, prot) + TAR, TAR)
    ensures forall k :: 0 <= k <= |id| ==> Contains(Composed(stem, id, ver, prot) + TAR, ID_TAG + id[..k])
    ensures Contains(Composed(stem, id, ver, prot) + TAR, ID_TAG + id)
  {
    var name := Composed(stem, id, ver, prot) + TAR;
    assert name[|name| - |TAR|..] == TAR;
    forall k | 0 <= k <= |id| ensures Contains(name, ID_TAG + id[..k]) {
      var t := ID_TAG + id[..k];
      assert name == stem + t + (id[k..] + VER_TAG + ver + PROT_TAG + prot + TAR);
      assert name[|stem|..|stem| + |t|] == t;
      assert MatchAt(name, t, |stem|);
    }
    assert id[..|id|] == id;
  }

  // ---------------------------------------------------------------------------
  // try_parse_filename

  /** The text after `prefix` in the LAST segment that starts with it: a later segment overrides an earlier one. */
  function TagValue(segments: seq<string>, prefix: string): (r: Option<string>)
    decreases |segments|
  {
    if |segments| == 0 then None
    else
      var n := |segments| - 1;
      if StartsWith(segments[n], prefix) then Some(segments[n][|prefix|..])
      else TagValue(segments[..n], prefix)
  }

  /** `prot_val.lower() == 'true'`, or `None` when the tag is missing. */
  function ProtFlag(value: Option<string>): (r: Option<bool>)
    ensures r.None? <==> value.None?
    ensures r == Some(true) <==>
      value.Some? && |value.value| == |"true"| && forall i :: 0 <= i < |"true"| ==> LowerChar(value.value[i]) == "true"[i]
  {
    if value.None? then None else Some(AsciiLower(value.value) == "true")
  }

  /**
    What `try_parse_filename` returns, stated per field: the name hint is the text
    before the first `__`, and each tag takes the value of the last segment carrying it.
  */
  function ParseFilename(name: string): (r: Option<Meta>)
    ensures r.Some? ==> EndsWith(name, TAR) && Contains(name[..|name| - |TAR|], ID_TAG) && r.value.backupId != ""
  {
    if !EndsWith(name, TAR) then None
    else
      var stem := name[..|name| - |TAR|];
      if !Contains(stem, ID_TAG) then None
      else
        var parts := Split(stem, "__");
        var id := TagValue(parts[1..], "id-");
        if id.None? || id.value == "" then None
        else Some(Meta(parts[0], id.value, TagValue(parts[1..], "ver-"), ProtFlag(TagValue(parts[1..], "prot-"))))
  }

  /**
    `try_parse_filename`: the loop over the `__`-separated segments that fills in the
    metadata record, with the `if`/`elif` chain of the source.
  */
  method TryParseFilename(name: string) returns (r: Option<Meta>)
    ensures r == ParseFilename(name)
  {
    if !EndsWith(name, TAR) {
      return None;
    }
    var stem := name[..|name| - |TAR|];
    if !Contains(stem, ID_TAG) {
      return None;
    }
    var parts := Split(stem, "__");
    var backupId, version, protected := ReadTags(parts[1..]);
    if backupId.None? || backupId.value == "" {
      return None;
    }
    return Some(Meta(parts[0], backupId.value, version, protected));
  }

  /** The loop of `try_parse_filename` over the segments after the first, filling in the tags. */
  method ReadTags(segments: seq<string>) returns (backupId: Option<string>, version: Option<string>, protected: Option<bool>)
    ensures backupId == TagValue(segments, "id-")
    ensures version == TagValue(segments, "ver-")
    ensures protected == ProtFlag(TagValue(segments, "prot-"))
  {
    backupId, version, protected := None, None, None;
    TagsStripToPrefixes();
    var idPrefix, verPrefix, protPrefix := Strip(ID_TAG, '_'), Strip(VER_TAG, '_'), Strip(PROT_TAG, '_');
    for i := 0 to |segments|
      invariant backupId == TagValue(segments[..i], "id-")
      invariant version == TagValue(segments[..i], "ver-")
      invariant protected == ProtFlag(TagValue(segments[..i], "prot-"))
    {
      var p := segments[i];
      ghost var seen := segments[..i];
      assert segments[..i + 1] == seen + [p];
      TagValueSnoc(seen, p);
      if StartsWith(p, idPrefix) {
        backupId := Some(p[|"id-"|..]);
      } else if StartsWith(p, verPrefix) {
        version := Some(p[|"ver-"|..]);
      } else if StartsWith(p, protPrefix) {
        var protVal := AsciiLower(p[|"prot-"|..]);
        protected := Some(protVal == "true");
        assert protected == ProtFlag(Some(p[|"prot-"|..]));
      }
    }
    assert segments[..|segments|] == segments;
  }

  /** One more segment: it sets the tag it starts with, and the three tags exclude each other. */
  lemma TagValueSnoc(segments: seq<string>, p: string)
    ensures TagValue(segments + [p], "id-") == if StartsWith(p, "id-") then Some(p[|"id-"|..]) else TagValue(segments, "id-")
    ensures TagValue(segments + [p], "ver-") == if StartsWith(p, "ver-") then Some(p[|"ver-"|..]) else TagValue(segments, "ver-")
    ensures TagValue(segments + [p], "prot-") == if StartsWith(p, "prot-") then Some(p[|"prot-"|..]) else TagValue(segments, "prot-")
    ensures StartsWith(p, "id-") ==> !StartsWith(p, "ver-") && !StartsWith(p, "prot-")
    ensures StartsWith(p, "ver-") ==> !StartsWith(p, "prot-")
  {
    assert (segments + [p])[..|segments|] == segments;
    if |p| > 0 {
      assert StartsWith(p, "id-") ==> p[0] == 'i';
      assert StartsWith(p, "ver-") ==> p[0] == 'v';
      assert StartsWith(p, "prot-") ==> p[0] == 'p';
    }
  }

  // ---------------------------------------------------------------------------
  // Properties

  /** Segment `k` is the last one carrying the tag `prefix`, and its value is `v`. */
  predicate LastTagAt(segments: seq<string>, prefix: string, k: int, v: string) {
    0 <= k < |segments| && StartsWith(segments[k], prefix) && v == segments[k][|prefix|..] &&
    forall j :: k < j < |segments| ==> !StartsWith(segments[j], prefix)
  }

  /** A tag's value is the one of the last segment carrying it; segments without it are ignored. */
  lemma {:induction false} TagValueIsLast(segments: seq<string>, prefix: string, v: string)
    ensures TagValue(segments, prefix) == Some(v) <==> exists k :: LastTagAt(segments, prefix, k, v)
  {
    if TagValue(segments, prefix) == Some(v) {
      var k := LastTagOfValue(segments, prefix, v);
    }
    if exists k :: LastTagAt(segments, prefix, k, v) {
      var k :| LastTagAt(segments, prefix, k, v);
      ValueOfLastTag(segments, prefix, k, v);
    }
  }

  /** A segment that is last with its tag in the first `n` segments stays last when the next one lacks the tag. */
  lemma LastTagExtends(segments: seq<string>, prefix: string, k: int, v: string)
    requires |segments| > 0 && !StartsWith(segments[|segments| - 1], prefix)
    ensures LastTagAt(segments[..|segments| - 1], prefix, k, v) <==> LastTagAt(segments, prefix, k, v)
  {
    var n := |segments| - 1;
    assert forall j :: 0 <= j < n ==> segments[..n][j] == segments[j];
  }

  lemma {:induction false} LastTagOfValue(segments: seq<string>, prefix: string, v: string) returns (k: int)
    requires TagValue(segments, prefix) == Some(v)
    ensures LastTagAt(segments, prefix, k, v)
    decreases |segments|
  {
    var n := |segments| - 1;
    if StartsWith(segments[n], prefix) {
      k := n;
    } else {
      k := LastTagOfValue(segments[..n], prefix, v);
      LastTagExtends(segments, prefix, k, v);
    }
  }

  lemma {:induction false} ValueOfLastTag(segments: seq<string>, prefix: string, k: int, v: string)
    requires LastTagAt(segments, prefix, k, v)
    ensures TagValue(segments, prefix) == Some(v)
    decreases |segments|
  {
    var n := |segments| - 1;
    if k < n {
      assert !StartsWith(segments[n], prefix);
      LastTagExtends(segments, prefix, k, v);
      ValueOfLastTag(segments[..n], prefix, k, v);
    }
  }

  /** A tag has no value exactly when no segment carries it. */
  lemma {:induction false} TagAbsent(segments: seq<string>, prefix: string)
    ensures TagValue(segments, prefix).None? <==> forall k :: 0 <= k < |segments| ==> !StartsWith(segments[k], prefix)
    decreases |segments|
  {
    if |segments| > 0 {
      var n := |segments| - 1;
      if !StartsWith(segments[n], prefix) {
        TagAbsent(segments[..n], prefix);
        assert forall k :: 0 <= k < n ==> segments[..n][k] == segments[k];
      }
    }
  }

  /** The segment a found tag is read from. */
  lemma {:induction false} TagIndex(segments: seq<string>, prefix: string) returns (k: nat)
    requires TagValue(segments, prefix).Some?
    ensures k < |segments| && StartsWith(segments[k], prefix)
    ensures TagValue(segments, prefix) == Some(segments[k][|prefix|..])
    decreases |segments|
  {
    if StartsWith(segments[|segments| - 1], prefix) {
      k := |segments| - 1;
    } else {
      var init := segments[..|segments| - 1];
      k := TagIndex(init, prefix);
      assert segments[k] == init[k];
    }
  }

  /** Whatever is accepted is a `.tar` name with a non-empty id that contains `__id-<id>`. */
  lemma ParseAccepts(name: string, m: Meta)
    requires ParseFilename(name) == Some(m)
    ensures EndsWith(name, TAR) && m.backupId != ""
    ensures Contains(name, ID_TAG + m.backupId)
  {
    var stem := name[..|name| - |TAR|];
    assert TagValue(Split(stem, "__")[1..], "id-") == Some(m.backupId);
    IdSegmentInStem(stem, m.backupId);
    assert name == [] + stem + TAR;
    ContainsWithin([], stem, TAR, ID_TAG + m.backupId);
  }

  /** A name without the `.tar` extension, or without `__id-` anywhere, is not a backup archive. */
  lemma ParseRejects(name: string)
    ensures !EndsWith(name, TAR) ==> ParseFilename(name) == None
    ensures !Contains(name, ID_TAG) ==> ParseFilename(name) == None
  {
    if EndsWith(name, TAR) {
      var stem := name[..|name| - |TAR|];
      if Contains(stem, ID_TAG) {
        assert name == [] + stem + TAR;
        ContainsWithin([], stem, TAR, ID_TAG);
      }
    }
  }

  /** The name hint of an accepted name is the text of its stem before the first `__`. */
  lemma NameHintBeforeFirstSeparator(name: string, m: Meta)
    requires ParseFilename(name) == Some(m)
    ensures var stem := name[..|name| - |TAR|];
            && StartsWith(stem, m.nameHint)
            && MatchAt(stem, "__", |m.nameHint|)
            && forall i: nat :: i < |m.nameHint| ==> !MatchAt(stem, "__", i)
  {
    var stem := name[..|name| - |TAR|];
    var k := SplitFirstPieceUpToSeparator(stem, "__", "");
    assert m.nameHint == Split(stem, "__")[0] == stem[..k];
    var t: nat :| t <= |stem| && MatchAt(stem, ID_TAG, t);
    assert stem[t..t + 2] == stem[t..t + |ID_TAG|][..2];
    assert MatchAt(stem, "__", t);
    assert k <= t < |stem|;
  }

  /** `id-` followed by a field without `__` holds no `__`. */
  lemma IdFieldNoSeparator(f: string)
    requires !Contains(f, "__")
    ensures !Contains("id-" + f, "__")
  {
    var s := "id-" + f;
    forall i: nat | i <= |s| ensures !MatchAt(s, "__", i) {
      if i + 2 <= |s| && i >= 3 {
        assert s[i..i + 2] == f[i - 3..i - 1];
        assert !MatchAt(f, "__", i - 3);
      } else if i + 2 <= |s| {
        assert s[i..i + 2][0] == s[i] == "id-"[i] != '_';
      }
    }
  }

  /**
    A later `id-` segment overrides an earlier one: of `<stem>__id-<a>__id-<b>.tar`
    the id read is `b`, and when `b` is empty the whole name is rejected.
  */
  lemma LaterIdOverrides(stem: string, a: string, b: string)
    requires SafeField(stem) && SafeField(a) && a != "" && !Contains(b, "__")
    ensures ParseFilename(stem + ID_TAG + a + ID_TAG + b + TAR)
         == if b == "" then None else Some(Meta(stem, b, None, None))
  {
    var x, y := "id-" + a, "id-" + b;
    var body := stem + ID_TAG + a + ID_TAG + b;
    var name := body + TAR;
    assert body == stem + "__" + (x + "__" + y);
    assert EndsWith(name, TAR) && name[..|name| - |TAR|] == body;
    assert body[|stem|..|stem| + |ID_TAG|] == ID_TAG;
    assert MatchAt(body, ID_TAG, |stem|);
    SafePrefixed("id-", a);
    IdFieldNoSeparator(b);
    DoubleUnderscoreDelimited(stem);
    DoubleUnderscoreDelimited(x);
    NoDoubleUnderscoreAt(y);
    SplitLastField(y, "__");
    SplitField(x, "__", y);
    SplitField(stem, "__", x + "__" + y);
    assert Split(body, "__")[1..] == [x, y];
    TagValueOfTwoIds(a, b);
  }

  /** Two `id-` segments: the second gives the id, and neither is a `ver-` or `prot-` segment. */
  lemma TagValueOfTwoIds(a: string, b: string)
    ensures var segments := ["id-" + a, "id-" + b];
            && TagValue(segments, "id-") == Some(b)
            && TagValue(segments, "ver-") == None
            && TagValue(segments, "prot-") == None
  {
    var x, y := "id-" + a, "id-" + b;
    assert x[..3] == "id-" && y[..3] == "id-" && x[0] == 'i' && y[0] == 'i';
    assert y[3..] == b;
    var first: seq<string> := [x];
    assert [x, y][..1] == first && |first[..0]| == 0;
    assert !StartsWith(x, "ver-") && !StartsWith(y, "ver-") && !StartsWith(x, "prot-") && !StartsWith(y, "prot-");
    assert TagValue(first, "ver-") == None && TagValue(first, "prot-") == None;
  }

  /** The segment an id is read from was preceded by `__` in the stem. */
  lemma IdSegmentInStem(stem: string, id: string)
    requires TagValue(Split(stem, "__")[1..], "id-") == Some(id)
    ensures Contains(stem, ID_TAG + id)
  {
    var parts := Split(stem, "__");
    var segments := parts[1..];
    var k := TagIndex(segments, "id-");
    SplitPiecePreceded(stem, "__", "", k + 1);
    assert parts[k + 1] == segments[k] == "id-" + id;
    assert "__" + parts[k + 1] == ID_TAG + id;
  }

  /** A field that `split('__')` keeps whole: no `__` inside and no trailing `_`. */
  predicate SafeField(f: string) {
    !Contains(f, "__") && !EndsWith(f, "_")
  }

  /** The name body `make_filename` writes before `.tar`. */
  function Composed(stem: string, id: string, ver: string, prot: string): string {
    stem + ID_TAG + id + VER_TAG + ver + PROT_TAG + prot
  }

  lemma ComposedShape(stem: string, id: string, ver: string, prot: string)
    ensures Composed(stem, id, ver, prot) == stem + "__" + (("id-" + id) + "__" + (("ver-" + ver) + "__" + ("prot-" + prot)))
  {
    assert ID_TAG == "__" + "id-" && VER_TAG == "__" + "ver-" && PROT_TAG == "__" + "prot-";
  }

  /** Four fields joined by `__` split back into the same four. */
  lemma SplitFour(a: string, b: string, c: string, d: string)
    requires SafeField(a) && SafeField(b) && SafeField(c) && !Contains(d, "__")
    ensures Split(a + "__" + (b + "__" + (c + "__" + d)), "__") == [a, b, c, d]
  {
    DoubleUnderscoreDelimited(a);
    DoubleUnderscoreDelimited(b);
    DoubleUnderscoreDelimited(c);
    NoDoubleUnderscoreAt(d);
    SplitLastField(d, "__");
    var r3 := c + "__" + d;
    SplitField(c, "__", d);
    assert SplitFrom(r3, "__", "") == [c, d];
    var r2 := b + "__" + r3;
    SplitField(b, "__", r3);
    assert SplitFrom(r2, "__", "") == [b, c, d];
    SplitField(a, "__", r2);
  }

  /** The `prot-` field written by `make_filename` holds no `__`. */
  lemma ProtFieldSafe(prot: string)
    requires prot == "true" || prot == "false"
    ensures !Contains("prot-" + prot, "__")
  {
    var s := "prot-" + prot;
    forall i: nat | i <= |s| ensures !MatchAt(s, "__", i) {
      if i + 2 <= |s| {
        assert forall j :: 0 <= j < |s| ==> s[j] != '_';
        assert s[i..i + 2][0] == s[i];
      }
    }
  }

  /** The name `make_filename` writes, seen as its body and the `.tar` extension. */
  lemma MakeFilenameParts(b: Backup, suggest: (string, string) -> string)
    ensures var name := MakeFilename(b, suggest);
            EndsWith(name, TAR) &&
            name[..|name| - |TAR|] == Composed(TarStem(suggest(b.name, b.date)), b.backupId,
              VersionText(b.version), if b.protected then "true" else "false")
  {
  }

  /** The body `make_filename` writes contains the id tag, right after the stem. */
  lemma ComposedHasIdTag(stem: string, id: string, ver: string, prot: string)
    ensures Contains(Composed(stem, id, ver, prot), ID_TAG)
  {
    var s := Composed(stem, id, ver, prot);
    assert s == stem + ID_TAG + (id + VER_TAG + ver + PROT_TAG + prot);
    assert s[|stem|..|stem| + |ID_TAG|] == ID_TAG;
    assert MatchAt(s, ID_TAG, |stem|);
  }

  /**
    Round trip: when no field can be cut wrongly by `split('__')`, parsing the name
    that `make_filename` writes gives back the id, the version (or `unknown`) and the flag.
  */
  lemma ParseMakeRoundTrip(b: Backup, suggest: (string, string) -> string)
    requires b.backupId != ""
    requires SafeField(TarStem(suggest(b.name, b.date)))
    requires SafeField(b.backupId) && SafeField(VersionText(b.version))
    ensures ParseFilename(MakeFilename(b, suggest))
         == Some(Meta(TarStem(suggest(b.name, b.date)), b.backupId, Some(VersionText(b.version)), Some(b.protected)))
  {
    var stem := TarStem(suggest(b.name, b.date));
    var ver := VersionText(b.version);
    var prot := if b.protected then "true" else "false";
    MakeFilenameParts(b, suggest);
    var name := MakeFilename(b, suggest);
    assert name == Composed(stem, b.backupId, ver, prot) + TAR;
    ParseWritten(stem, b.backupId, ver, b.protected);
  }

  /** Parsing a written name, with the fields given directly. */
  lemma ParseWritten(stem: string, id: string, ver: string, p: bool)
    requires id != "" && ver != ""
    requires SafeField(stem) && SafeField(id) && SafeField(ver)
    ensures ParseFilename(Composed(stem, id, ver, if p then "true" else "false") + TAR)
         == Some(Meta(stem, id, Some(ver), Some(p)))
  {
    var prot := if p then "true" else "false";
    var body := Composed(stem, id, ver, prot);
    var name := body + TAR;
    assert EndsWith(name, TAR) && name[..|name| - |TAR|] == body;
    ComposedHasIdTag(stem, id, ver, prot);
    ComposedShape(stem, id, ver, prot);
    SafePrefixed("id-", id);
    SafePrefixed("ver-", ver);
    ProtFieldSafe(prot);
    SplitFour(stem, "id-" + id, "ver-" + ver, "prot-" + prot);
    var parts := Split(body, "__");
    assert parts == [stem, "id-" + id, "ver-" + ver, "prot-" + prot];
    assert parts[1..] == ["id-" + id, "ver-" + ver, "prot-" + prot];
    TagValueOfComposed(id, ver, prot);
    ProtFlagOfWritten(p);
  }

  /** The flag `make_filename` writes reads back as itself. */
  lemma ProtFlagOfWritten(p: bool)
    ensures ProtFlag(Some(if p then "true" else "false")) == Some(p)
  {
    LowerWord("true");
    LowerWord("false");
  }

  /** Lower-case words are left alone by `lower()`. */
  lemma LowerWord(s: string)
    requires forall i :: 0 <= i < |s| ==> 'a' <= s[i] <= 'z'
    ensures AsciiLower(s) == s
  {
  }

  /** Each tag of the three written segments is found. */
  lemma TagValueOfComposed(id: string, ver: string, prot: string)
    ensures var segments := ["id-" + id, "ver-" + ver, "prot-" + prot];
            && TagValue(segments, "id-") == Some(id)
            && TagValue(segments, "ver-") == Some(ver)
            && TagValue(segments, "prot-") == Some(prot)
  {
    var i, v, p := "id-" + id, "ver-" + ver, "prot-" + prot;
    var segments := [i, v, p];
    assert i[..|"id-"|] == "id-" && v[..|"ver-"|] == "ver-" && p[..|"prot-"|] == "prot-";
    assert i[|"id-"|..] == id && v[|"ver-"|..] == ver && p[|"prot-"|..] == prot;
    assert p[0] == 'p' && v[0] == 'v';
    assert !StartsWith(p, "id-") && !StartsWith(p, "ver-") && !StartsWith(v, "id-");
    assert segments[..2] == [i, v];
    assert [i, v][..1] == [i];
    assert TagValue(segments, "prot-") == Some(prot);
    assert TagValue(segments, "ver-") == TagValue([i, v], "ver-") == Some(ver);
    assert TagValue(segments, "id-") == TagValue([i, v], "id-") == TagValue([i], "id-") == Some(id);
  }

  /** A tag prefix ending in `-` keeps a safe field safe. */
  lemma SafePrefixed(prefix: string, f: string)
    requires prefix == "id-" || prefix == "ver-"
    requires SafeField(f) && f != ""
    ensures SafeField(prefix + f)
  {
    var s := prefix + f;
    forall i: nat | i <= |s| ensures !MatchAt(s, "__", i) {
      if i + 2 <= |s| && i >= |prefix| {
        assert s[i..i + 2] == f[i - |prefix|..i - |prefix| + 2];
        assert !MatchAt(f, "__", i - |prefix|);
      } else if i + 2 <= |s| && i + 1 < |prefix| {
        assert s[i + 1] == prefix[i + 1] != '_';
        assert s[i..i + 2][1] == s[i + 1];
      } else if i + 2 <= |s| {
        assert s[i] == prefix[i] == '-';
        assert s[i..i + 2][0] == s[i];
      }
    }
    assert s[|s| - 1..] == f[|f| - 1..];
  }

  /**
    The round trip does need the trailing-underscore condition: a stem ending in `_`
    merges with the `__` of the id tag, and the id is then lost.
  */
  lemma TrailingUnderscoreLosesId()
    ensures ParseFilename("a_" + ID_TAG + "x" + TAR) == None
  {
    var name := "a_" + ID_TAG + "x" + TAR;
    var stem := name[..|name| - |TAR|];
    assert stem == "a___id-x";
    assert Split(stem, "__") == ["a", "_id-x"] by {
      assert stem == "a" + "__" + "_id-x";
      assert Delimited("a", "__") by {
        assert !MatchAt("a__", "__", 0);
      }
      SplitField("a", "__", "_id-x");
      forall i: nat | i < |"_id-x"| ensures !MatchAt("_id-x", "__", i) {
        if i + 2 <= 5 { assert "_id-x"[i..i + 2][1] == "_id-x"[i + 1]; }
      }
      SplitLastField("_id-x", "__");
    }
    assert Split(stem, "__")[1..] == ["_id-x"];
    assert TagValue(["_id-x"], "id-") == None by {
      assert "_id-x"[..3][0] == '_';
      assert ["_id-x"][..0] == [];
    }
  }

  /** `prot-` is read case-insensitively; only the word `true` means protected. */
  lemma ProtFlagCases()
    ensures ProtFlag(Some("TRUE")) == Some(true) && ProtFlag(Some("True")) == Some(true)
    ensures ProtFlag(Some("false")) == Some(false) && ProtFlag(Some("yes")) == Some(false)
    ensures ProtFlag(Some("")) == Some(false) && ProtFlag(None) == None
  {
    var upper, title := AsciiLower("TRUE"), AsciiLower("True");
    assert upper[0] == 't' && upper[1] == 'r' && upper[2] == 'u' && upper[3] == 'e';
    assert title[0] == 't' && title[1] == 'r' && title[2] == 'u' && title[3] == 'e';
    assert upper == "true" && title == "true";
  }
}
