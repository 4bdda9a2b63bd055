/** src/utils.ts: the Node.js version comparison `compareNodeVersions` (with its
    inner `parseVersion`), the version gate of `createURL`, and the separator
    rewrite of `normalizePath`. */
module Utils {
  import opened JsBuiltins

  // ---------------------------------------------------------------------------
  // parseVersion
  // ---------------------------------------------------------------------------

  /** The object literal `{ major, minor, patch }` that `parseVersion` returns. */
  datatype Version = Version(major: nat, minor: nat, patch: nat)

  /** `vStr.startsWith("v") ? vStr.substring(1) : vStr`: at most one leading `v`
      is removed. */
  function StripV(vStr: string): (r: string)
    ensures StartsWith(vStr, "v") ==> vStr == "v" + r
    ensures !StartsWith(vStr, "v") ==> r == vStr
  {
    if StartsWith(vStr, "v") then vStr[1..] else vStr
  }

  /** `parts[i] || 0` on the array `parts = normalized.split(".").map(Number)`:
      an index past the end (`undefined`), `NaN` and `0` are all falsy and give 0;
      any other number is kept. */
  function ComponentOrZero(parts: seq<Number>, i: nat): (r: nat)
    ensures r != 0 ==> i < |parts| && parts[i] == Num(r)
    ensures i < |parts| && parts[i].Num? ==> r == parts[i].value
  {
    if i < |parts| && parts[i].Num? then parts[i].value else 0
  }

  /** The value one dot-separated component contributes: `Number(part) || 0`,
      the default of ComponentOrZero applied to that part alone. */
  function ComponentValue(part: string): nat {
    ComponentOrZero([ToNumber(part)], 0)
  }

  /** `parseVersion(vStr)`: major, minor and patch are the values of the first
      three dot-separated parts of `vStr` without its leading `v`, and a part
      that is not there counts as 0. */
  function ParseVersion(vStr: string): (r: Version)
    ensures var parts := Split(StripV(vStr), '.');
      && r.major == ComponentValue(parts[0])
      && r.minor == (if |parts| > 1 then ComponentValue(parts[1]) else 0)
      && r.patch == (if |parts| > 2 then ComponentValue(parts[2]) else 0)
  {
    var parts := MapToNumber(Split(StripV(vStr), '.'));
    Version(ComponentOrZero(parts, 0), ComponentOrZero(parts, 1), ComponentOrZero(parts, 2))
  }

  /** The canonical spelling `v<major>.<minor>.<patch>` of a version, as Node.js
      reports it in `process.version`. */
  function VersionString(v: Version): string {
    "v" + Join([DecimalString(v.major), DecimalString(v.minor), DecimalString(v.patch)], '.')
  }

  lemma NoDotInDigits(s: string)
    requires AllDigits(s)
    ensures '.' !in s
  {
    forall i | 0 <= i < |s| ensures s[i] != '.' {
      assert IsDigit(s[i]);
    }
  }

  /** `parseVersion` reads the canonical spelling of every version back exactly:
      `parseVersion` loses nothing on the strings Node.js produces. */
  lemma ParseVersionString(v: Version)
    ensures ParseVersion(VersionString(v)) == v
  {
    var digits := [DecimalString(v.major), DecimalString(v.minor), DecimalString(v.patch)];
    forall i | 0 <= i < |digits| ensures '.' !in digits[i] {
      NoDotInDigits(digits[i]);
    }
    assert StripV(VersionString(v)) == Join(digits, '.');
    SplitJoin(digits, '.');
    ToNumberDecimalString(v.major);
    ToNumberDecimalString(v.minor);
    ToNumberDecimalString(v.patch);
  }

  /** The leading `v` is optional: `v1.2.3` and `1.2.3` parse alike. Only one `v`
      is stripped, so the equality needs `s` not to start with `v` itself. */
  lemma VPrefixOptional(s: string)
    requires !StartsWith(s, "v")
    ensures ParseVersion("v" + s) == ParseVersion(s)
  {
    assert StartsWith("v" + s, "v");
    assert ("v" + s)[1..] == s;
  }

  /** A second leading `v` is not stripped: `vv1` is `0.0.0` while `v1` is `1.0.0`,
      so the requirement of VPrefixOptional cannot be dropped. */
  lemma OnlyOneVStripped()
    ensures ParseVersion("vv1") == Version(0, 0, 0)
    ensures ParseVersion("v1") == Version(1, 0, 0)
  {
    assert StripV("vv1") == "v1";
    assert StripV("v1") == "1";
    SplitWithoutSeparator("v1", '.');
    SplitWithoutSeparator("1", '.');
    assert !IsDigit("v1"[0]);
    assert "1"[..0] == "";
  }

  /** Appending `.t` to a version string appends `t` to the stripped string. */
  lemma StripVAppend(vStr: string, t: string)
    ensures StripV(vStr + "." + t) == StripV(vStr) + "." + t
  {
    if |vStr| > 0 {
      assert (vStr + "." + t)[0] == vStr[0];
      if StartsWith(vStr, "v") {
        assert (vStr + "." + t)[1..] == vStr[1..] + "." + t;
      }
    } else {
      assert vStr + "." + t == "." + t;
    }
  }

  /** Components after the third are ignored: `1.2.3.9` parses as `1.2.3`. */
  lemma ExtraComponentIgnored(vStr: string, t: string)
    requires |Split(StripV(vStr), '.')| >= 3
    ensures ParseVersion(vStr + "." + t) == ParseVersion(vStr)
  {
    StripVAppend(vStr, t);
    SplitAtSeparator(StripV(vStr), t, '.');
    var parts := Split(StripV(vStr), '.');
    var longer := Split(StripV(vStr + "." + t), '.');
    assert longer == parts + Split(t, '.');
    assert longer[0] == parts[0] && longer[1] == parts[1] && longer[2] == parts[2];
  }

  /** A missing component counts as 0, and so does an explicit zero or a
      non-numeric one: appending `.0` or `.x` never changes the version. */
  lemma ZeroComponentAppended(vStr: string, t: string)
    requires '.' !in t
    requires ComponentValue(t) == 0
    ensures ParseVersion(vStr + "." + t) == ParseVersion(vStr)
  {
    var parts := Split(StripV(vStr), '.');
    if |parts| >= 3 {
      ExtraComponentIgnored(vStr, t);
    } else {
      StripVAppend(vStr, t);
      SplitAtSeparator(StripV(vStr), t, '.');
      SplitWithoutSeparator(t, '.');
      var longer := Split(StripV(vStr + "." + t), '.');
      assert longer == parts + [t];
    }
  }

  /** `"22.1"` is version 22.1.0. */
  lemma ParseTwentyTwoOne()
    ensures ParseVersion("22.1") == Version(22, 1, 0)
  {
    assert DigitChar(2) == '2' && DigitChar(1) == '1';
    assert DecimalString(2) == "2";
    assert DecimalString(22) == "22";
    assert DecimalString(1) == "1";
    var digits := [DecimalString(22), DecimalString(1)];
    NoDotInDigits(digits[0]);
    NoDotInDigits(digits[1]);
    assert digits[1..] == ["1"];
    assert Join(digits, '.') == "22" + "." + "1" == "22.1";
    assert !StartsWith("22.1", "v") by {
      assert "22.1"[0] != "v"[0];
    }
    SplitJoin(digits, '.');
    ToNumberDecimalString(22);
    ToNumberDecimalString(1);
  }

  /** `"v22.1"`, with its leading `v`, is version 22.1.0. */
  lemma ParseTwentyTwoOneWithV()
    ensures ParseVersion("v22.1") == Version(22, 1, 0)
  {
    ParseTwentyTwoOne();
    VPrefixOptional("22.1");
    assert "v" + "22.1" == "v22.1";
  }

  /** `"22.1.0"` is version 22.1.0. */
  lemma ParseTwentyTwoOneZero()
    ensures ParseVersion("22.1.0") == Version(22, 1, 0)
  {
    ParseTwentyTwoOne();
    assert ComponentValue("0") == 0 by {
      assert "0"[..0] == "";
    }
    ZeroComponentAppended("22.1", "0");
    assert "22.1" + "." + "0" == "22.1.0";
  }

  /** `"22.1.x"` is version 22.1.0. */
  lemma ParseTwentyTwoOneX()
    ensures ParseVersion("22.1.x") == Version(22, 1, 0)
  {
    ParseTwentyTwoOne();
    assert ComponentValue("x") == 0 by {
      assert !IsDigit("x"[0]);
    }
    ZeroComponentAppended("22.1", "x");
    assert "22.1" + "." + "x" == "22.1.x";
  }

  /** The threshold of `createURL` written three ways: `v22.1`, `22.1.0` and
      `22.1.x` all denote version 22.1.0. */
  lemma EquivalentSpellings()
    ensures ParseVersion("v22.1") == Version(22, 1, 0)
    ensures ParseVersion("22.1.0") == Version(22, 1, 0)
    ensures ParseVersion("22.1.x") == Version(22, 1, 0)
  {
    ParseTwentyTwoOneWithV();
    ParseTwentyTwoOneZero();
    ParseTwentyTwoOneX();
  }

  /** A fourth component is ignored: `1.2.3.9` parses as `1.2.3`. */
  lemma FourthComponentExample()
    ensures ParseVersion("1.2.3.9") == ParseVersion("1.2.3")
  {
    assert !StartsWith("1.2.3", "v") by {
      assert "1.2.3"[0] != "v"[0];
    }
    SplitAtSeparator("1", "2", '.');
    assert "1" + "." + "2" == "1.2";
    SplitAtSeparator("1.2", "3", '.');
    assert "1.2" + "." + "3" == "1.2.3";
    assert |Split("1.2.3", '.')| >= 3;
    ExtraComponentIgnored("1.2.3", "9");
    assert "1.2.3" + "." + "9" == "1.2.3.9";
  }

  // ---------------------------------------------------------------------------
  // compareNodeVersions
  // ---------------------------------------------------------------------------

  /** Lexicographic "strictly less" on sequences of numbers; a proper prefix is
      smaller. This is the reference order that the comparison cascade follows. */
  predicate LexLess(s: seq<nat>, t: seq<nat>) {
    if |s| == 0 || |t| == 0 then |s| < |t|
    else s[0] < t[0] || (s[0] == t[0] && LexLess(s[1..], t[1..]))
  }

  function Components(v: Version): seq<nat> {
    [v.major, v.minor, v.patch]
  }

  /** The `if`/`return` cascade of `compareNodeVersions` on parsed versions:
      1 when `a` is newer, -1 when older, 0 when they are the same version. */
  function CompareVersions(a: Version, b: Version): (r: int)
    ensures r == -1 || r == 0 || r == 1
    ensures r == 0 <==> a == b
  {
    if a.major != b.major then (if a.major > b.major then 1 else -1)
    else if a.minor != b.minor then (if a.minor > b.minor then 1 else -1)
    else if a.patch != b.patch then (if a.patch > b.patch then 1 else -1)
    else 0
  }

  /** `LexLess` on triples, unfolded. */
  lemma LexLessTriple(x0: nat, x1: nat, x2: nat, y0: nat, y1: nat, y2: nat)
    ensures LexLess([x0, x1, x2], [y0, y1, y2]) <==>
      x0 < y0 || (x0 == y0 && (x1 < y1 || (x1 == y1 && x2 < y2)))
  {
    assert [x0, x1, x2][1..] == [x1, x2] && [y0, y1, y2][1..] == [y1, y2];
    assert [x1, x2][1..] == [x2] && [y1, y2][1..] == [y2];
    assert [x2][1..] == [] && [y2][1..] == [];
    assert LexLess([x2], [y2]) <==> x2 < y2;
    assert LexLess([x1, x2], [y1, y2]) <==> x1 < y1 || (x1 == y1 && LexLess([x2], [y2]));
    assert LexLess([x0, x1, x2], [y0, y1, y2]) <==> x0 < y0 || (x0 == y0 && LexLess([x1, x2], [y1, y2]));
  }

  /** The cascade is exactly the lexicographic order on (major, minor, patch). */
  lemma {:induction false} CompareVersionsLexicographic(a: Version, b: Version)
    ensures CompareVersions(a, b) == -1 <==> LexLess(Components(a), Components(b))
    ensures CompareVersions(a, b) == 1 <==> LexLess(Components(b), Components(a))
  {
    LexLessTriple(a.major, a.minor, a.patch, b.major, b.minor, b.patch);
    LexLessTriple(b.major, b.minor, b.patch, a.major, a.minor, a.patch);
  }

  /** `compareNodeVersions(v1, v2)`: 1, -1 or 0 as `v1` denotes a newer, an older
      or the same version as `v2`, ordering versions lexicographically by
      (major, minor, patch). */
  function CompareNodeVersions(v1: string, v2: string): (r: int)
    ensures r == -1 || r == 0 || r == 1
    ensures r == 0 <==> ParseVersion(v1) == ParseVersion(v2)
    ensures r == 1 <==> LexLess(Components(ParseVersion(v2)), Components(ParseVersion(v1)))
    ensures r == -1 <==> LexLess(Components(ParseVersion(v1)), Components(ParseVersion(v2)))
  {
    var ver1 := ParseVersion(v1);
    var ver2 := ParseVersion(v2);
    CompareVersionsLexicographic(ver1, ver2);
    CompareVersions(ver1, ver2)
  }

  /** Every version string compares equal to itself. */
  lemma CompareReflexive(v: string)
    ensures CompareNodeVersions(v, v) == 0
  {
  }

  /** Swapping the arguments negates the result. */
  lemma CompareAntisymmetric(a: string, b: string)
    ensures CompareNodeVersions(a, b) == -CompareNodeVersions(b, a)
  {
  }

  /** "Not older than" is transitive. */
  lemma CompareTransitive(a: string, b: string, c: string)
    requires CompareNodeVersions(a, b) >= 0 && CompareNodeVersions(b, c) >= 0
    ensures CompareNodeVersions(a, c) >= 0
  {
  }

  /** `v1` and `1.0.0` are distinct strings that denote the same version. */
  lemma NotAntisymmetricWitness()
    ensures CompareNodeVersions("v1", "1.0.0") == 0
  {
    assert ParseVersion("v1") == Version(1, 0, 0) by {
      OnlyOneVStripped();
    }
    assert ParseVersion("1.0.0") == Version(1, 0, 0) by {
      assert ParseVersion("1") == Version(1, 0, 0) by {
        OnlyOneVStripped();
        VPrefixOptional("1");
        assert "v" + "1" == "v1";
      }
      assert ComponentValue("0") == 0 by {
        assert "0"[..0] == "";
      }
      ZeroComponentAppended("1", "0");
      ZeroComponentAppended("1.0", "0");
      assert "1" + "." + "0" == "1.0";
      assert "1.0" + "." + "0" == "1.0.0";
    }
  }

  /** "Not older than" is a total preorder on version strings: reflexive,
      transitive and total. It is not antisymmetric on strings (`v1` and
      `1.0.0` are distinct strings that compare equal). */
  lemma CompareTotalPreorder()
    ensures forall a :: CompareNodeVersions(a, a) >= 0
    ensures forall a, b, c ::
      (CompareNodeVersions(a, b) >= 0 && CompareNodeVersions(b, c) >= 0) ==> CompareNodeVersions(a, c) >= 0
    ensures forall a, b :: CompareNodeVersions(a, b) >= 0 || CompareNodeVersions(b, a) >= 0
    ensures CompareNodeVersions("v1", "1.0.0") == 0
  {
    forall a, b, c | CompareNodeVersions(a, b) >= 0 && CompareNodeVersions(b, c) >= 0
      ensures CompareNodeVersions(a, c) >= 0
    {
      CompareTransitive(a, b, c);
    }
    forall a, b ensures CompareNodeVersions(a, b) >= 0 || CompareNodeVersions(b, a) >= 0 {
      CompareAntisymmetric(a, b);
    }
    NotAntisymmetricWitness();
  }

  /** A differing major version decides the result whatever the minor and patch
      versions are. The second ensures is the first branch of the cascade; the
      statement independent of the cascade is CompareVersionsLexicographic. */
  lemma MajorDecides(a: Version, b: Version, a': Version, b': Version)
    requires a.major != b.major && a'.major == a.major && b'.major == b.major
    ensures CompareVersions(a', b') == CompareVersions(a, b)
    ensures CompareVersions(a, b) == (if a.major > b.major then 1 else -1)
  {
  }

  /** The minor version decides only among equal major versions, whatever the
      patch versions are. The second ensures is the second branch of the cascade;
      the statement independent of the cascade is CompareVersionsLexicographic. */
  lemma MinorDecidesOnEqualMajor(a: Version, b: Version, a': Version, b': Version)
    requires a.major == b.major && a.minor != b.minor
    requires a'.major == a.major && a'.minor == a.minor
    requires b'.major == b.major && b'.minor == b.minor
    ensures CompareVersions(a', b') == CompareVersions(a, b)
    ensures CompareVersions(a, b) == (if a.minor > b.minor then 1 else -1)
  {
  }

  /** The patch version decides only when major and minor are equal. This is the
      last branch of the cascade; the statement independent of the cascade is
      CompareVersionsLexicographic. */
  lemma PatchDecidesOnEqualMajorMinor(a: Version, b: Version)
    requires a.major == b.major && a.minor == b.minor
    ensures CompareVersions(a, b) == (if a.patch > b.patch then 1 else if a.patch < b.patch then -1 else 0)
  {
  }

  /** On canonical spellings the string comparison is the version comparison, so
      components compare as numbers and not as text (`v18.9.0` is older than
      `v18.20.0`). */
  lemma CompareVersionStrings(a: Version, b: Version)
    ensures CompareNodeVersions(VersionString(a), VersionString(b)) == CompareVersions(a, b)
  {
    ParseVersionString(a);
    ParseVersionString(b);
  }

  // ---------------------------------------------------------------------------
  // createURL's version gate
  // ---------------------------------------------------------------------------

  /** A version gate `compareNodeVersions(v, threshold) >= 0` holds exactly when
      the version of `v` is the threshold's version or lexicographically later. */
  lemma AtLeastThreshold(v: string, threshold: string, t: Version)
    requires ParseVersion(threshold) == t
    ensures CompareNodeVersions(v, threshold) >= 0 <==>
      (var p := ParseVersion(v);
       p.major > t.major || (p.major == t.major &&
         (p.minor > t.minor || (p.minor == t.minor && p.patch >= t.patch))))
  {
    var p := ParseVersion(v);
    LexLessTriple(p.major, p.minor, p.patch, t.major, t.minor, t.patch);
  }

  /** The branch condition of `createURL`: `URL.parse` is used when the running
      Node.js is at least 22.1, and `new URL` otherwise. */
  function UseUrlParse(processVersion: string): (r: bool)
    ensures r <==> (var p := ParseVersion(processVersion);
                    p.major > 22 || (p.major == 22 && p.minor >= 1))
  {
    ParseTwentyTwoOneWithV();
    AtLeastThreshold(processVersion, "v22.1", Version(22, 1, 0));
    CompareNodeVersions(processVersion, "v22.1") >= 0
  }

  /** The gate of `createURL` on canonical spellings: 22.0.x uses `new URL`, 22.1.0
      and later use `URL.parse`. */
  lemma UrlParseGateExamples()
    ensures !UseUrlParse(VersionString(Version(22, 0, 9)))
    ensures UseUrlParse(VersionString(Version(22, 1, 0)))
    ensures UseUrlParse(VersionString(Version(23, 0, 0)))
    ensures !UseUrlParse(VersionString(Version(21, 7, 3)))
  {
    ParseVersionString(Version(22, 0, 9));
    ParseVersionString(Version(22, 1, 0));
    ParseVersionString(Version(23, 0, 0));
    ParseVersionString(Version(21, 7, 3));
  }

  // ---------------------------------------------------------------------------
  // normalizePath
  // ---------------------------------------------------------------------------

  /** `s.replace(/\\/g, "/")`: every backslash becomes a forward slash and every
      other character stays where it is. */
  function ReplaceBackslashes(s: string): (r: string)
    ensures |r| == |s|
    ensures forall i :: 0 <= i < |s| ==> r[i] == (if s[i] == '\\' then '/' else s[i])
  {
    if |s| == 0 then ""
    else [if s[0] == '\\' then '/' else s[0]] + ReplaceBackslashes(s[1..])
  }

  /** The rewrite leaves no backslash behind and changes exactly the backslashes. */
  lemma ReplaceChangesOnlyBackslashes(s: string)
    ensures '\\' !in ReplaceBackslashes(s)
    ensures forall i :: 0 <= i < |s| ==> (ReplaceBackslashes(s)[i] != s[i] <==> s[i] == '\\')
  {
    var r := ReplaceBackslashes(s);
    forall i | 0 <= i < |r| ensures r[i] != '\\' {
    }
  }

  /** A string is left unchanged exactly when it holds no backslash. */
  lemma ReplaceIdentity(s: string)
    ensures ReplaceBackslashes(s) == s <==> '\\' !in s
  {
    ReplaceChangesOnlyBackslashes(s);
    if '\\' in s {
      var i :| 0 <= i < |s| && s[i] == '\\';
      assert ReplaceBackslashes(s)[i] != s[i];
    }
  }

  /** Rewriting twice is rewriting once. */
  lemma ReplaceIdempotent(s: string)
    ensures ReplaceBackslashes(ReplaceBackslashes(s)) == ReplaceBackslashes(s)
  {
    ReplaceChangesOnlyBackslashes(s);
    ReplaceIdentity(ReplaceBackslashes(s));
  }

  /** `normalizePath(p)`: `path.posix.normalize(p)` followed by the backslash
      rewrite. The POSIX normaliser is a library routine whose behaviour is not
      modelled; it is passed in as `posixNormalize`. Whatever it returns, the
      result holds no backslash, has a `/` wherever it had a backslash, and keeps
      every other character. */
  function NormalizePath(posixNormalize: string -> string, p: string): (r: string)
    ensures '\\' !in r
    ensures |r| == |posixNormalize(p)|
    ensures forall i :: 0 <= i < |r| ==>
      r[i] == (if posixNormalize(p)[i] == '\\' then '/' else posixNormalize(p)[i])
  {
    ReplaceChangesOnlyBackslashes(posixNormalize(p));
    ReplaceBackslashes(posixNormalize(p))
  }
}
