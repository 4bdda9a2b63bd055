/** The one piece of logic in tests/loader.test.ts: the gate that skips the JSON
    import-attribute test on a Node.js older than 18.20.0. */
module LoaderTest {
  import opened JsBuiltins
  import opened Utils

  /** `"v18.20.0"` is version 18.20.0. */
  lemma ParseImportAttributesThreshold()
    ensures ParseVersion("v18.20.0") == Version(18, 20, 0)
  {
    assert DigitChar(0) == '0' && DigitChar(1) == '1' && DigitChar(2) == '2' && DigitChar(8) == '8';
    assert DecimalString(18) == "18";
    assert DecimalString(20) == "20";
    assert DecimalString(0) == "0";
    var digits := [DecimalString(18), DecimalString(20), DecimalString(0)];
    assert digits[1..] == ["20", "0"] && digits[1..][1..] == ["0"];
    assert Join(digits, '.') == "18" + "." + "20" + "." + "0";
    assert VersionString(Version(18, 20, 0)) == "v18.20.0";
    ParseVersionString(Version(18, 20, 0));
  }

  /** `supportImportAttributes`: the running Node.js is 18.20.0 or newer. */
  function SupportsImportAttributes(processVersion: string): (r: bool)
    ensures r <==> (var p := ParseVersion(processVersion);
                    p.major > 18 || (p.major == 18 && p.minor >= 20))
  {
    ParseImportAttributesThreshold();
    AtLeastThreshold(processVersion, "v18.20.0", Version(18, 20, 0));
    CompareNodeVersions(processVersion, "v18.20.0") >= 0
  }

  /** Components compare as numbers, not as text: 18.9 is older than 18.20 even
      though `"9" > "2"`, and 20.0.0 is newer. */
  lemma ImportAttributesGateExamples()
    ensures !SupportsImportAttributes(VersionString(Version(18, 9, 0)))
    ensures !SupportsImportAttributes(VersionString(Version(18, 19, 1)))
    ensures SupportsImportAttributes(VersionString(Version(18, 20, 0)))
    ensures SupportsImportAttributes(VersionString(Version(20, 0, 0)))
  {
    ParseVersionString(Version(18, 9, 0));
    ParseVersionString(Version(18, 19, 1));
    ParseVersionString(Version(18, 20, 0));
    ParseVersionString(Version(20, 0, 0));
  }
}
