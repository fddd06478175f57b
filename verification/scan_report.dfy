/** How the smart scanner assembles a report (`components/smart-scanner.tsx`): flag
    findings from the regular-expression scan, the image LSB probe, and the two entry
    points, one for a dropped file and one for a typed-in target. */
module ScanReport {
  import opened Results
  import opened JsText
  import opened Bytes
  import opened RadixText
  import opened StableSort
  import opened FlagPattern
  import opened Findings
  import opened SmartScanner
  import StegoCodec
  import opened Digits

  // ---------------------------------------------------------------- flag findings

  function FlagFinding(content: string, via: string): Finding
  {
    Finding(FlagType, content, "Found standard flag pattern", Critical, via)
  }

  /** `scanTextForPatterns`: one critical flag finding per match of the flag pattern, left
      to right. */
  function FlagFindings(text: string, source: string): (r: seq<Finding>)
    ensures |r| == |FindAll(text)|
    ensures forall k :: 0 <= k < |r| ==> r[k].kind == FlagType && r[k].severity == Critical
  {
    var spans := FindAll(text);
    FindFromSound(text, 0);
    seq(|spans|, k requires 0 <= k < |spans| =>
      FlagFinding(text[spans[k].start..spans[k].end], "Regex match in " + source))
  }

  /** Each finding quotes the text of one match, and that text is flag-shaped. */
  lemma FlagFindingsSound(text: string, source: string)
    ensures var r := FlagFindings(text, source);
            var spans := FindAll(text);
            forall k :: 0 <= k < |r| ==>
              spans[k].start < spans[k].end <= |text| &&
              r[k].content == text[spans[k].start..spans[k].end] && FlagText(r[k].content)
  {
    var spans := FindAll(text);
    FindFromSound(text, 0);
    forall k | 0 <= k < |spans|
      ensures FlagText(text[spans[k].start..spans[k].end])
    {
      MatchAtSound(text, spans[k].start);
    }
  }

  /** There is no finding exactly when no piece of the text is flag-shaped. */
  lemma FlagFindingsNone(text: string, source: string)
    ensures |FlagFindings(text, source)| == 0 <==>
              forall i, e :: 0 <= i <= e <= |text| ==> !FlagText(text[i..e])
  {
    var spans := FindAll(text);
    if |spans| == 0 {
      FindFromFirstGap(text, 0);
      forall i, e | 0 <= i <= e <= |text|
        ensures !FlagText(text[i..e])
      {
        if FlagText(text[i..e]) {
          MatchAtComplete(text, i, e);
        }
      }
    } else {
      FlagFindingsSound(text, source);
      var r := FlagFindings(text, source);
      assert FlagText(text[spans[0].start..spans[0].end]);
    }
  }

  // ---------------------------------------------------------------- LSB probe

  /** `maxBits`: the probe reads at most 5000 bytes' worth of bits. */
  const ProbeBits: nat := 5000 * 8

  /** The probe's grouping: eight bits at a time read with `parseInt(chunk, 2)`, a shorter
      final chunk read as it is, stopping at the first zero byte. */
  function ProbeBytes(bits: seq<bit>): (bytes: seq<byte>)
    ensures forall i :: 0 <= i < |bytes| ==> bytes[i] != 0
    ensures 8 * |bytes| < |bits| + 8
    decreases |bits|
  {
    if |bits| == 0 then []
    else
      var n := if |bits| < 8 then |bits| else 8;
      var b := BitsValue(bits[..n]);
      if b == 0 then [] else [b] + ProbeBytes(bits[n..])
  }

  /** `parseInt` reads a chunk of the bit string as the chunk's value. */
  lemma ProbeChunkParse(chunk: seq<bit>)
    requires 1 <= |chunk| <= 8
    ensures ParseInt(Utf16(SpellBits(chunk)), 2) == Some(BitsValue(chunk))
  {
    SpellBitsValues(chunk);
    ParseIntDigits(SpellBits(chunk), 2);
  }

  /** On whole bytes the probe groups bits exactly as the codec's decoder does. */
  lemma {:induction false} ProbeMatchesCodec(bits: seq<bit>)
    requires |bits| % 8 == 0
    ensures ProbeBytes(bits) == StegoCodec.GroupBytes(bits)
    decreases |bits|
  {
    if |bits| > 0 {
      ProbeMatchesCodec(bits[8..]);
    }
  }

  /** Unlike the codec, the probe keeps a trailing partial chunk: one pixel whose red
      channel is odd gives the bits 1 0 0, which the probe reads as the byte 4 and the
      codec drops. */
  lemma ProbeKeepsPartialByte()
    ensures StegoCodec.Lsbs([1, 0, 0, 255], ProbeBits) == [1, 0, 0]
    ensures ProbeBytes([1, 0, 0]) == [4]
    ensures StegoCodec.GroupBytes([1, 0, 0]) == []
  {
    var bits: seq<bit> := [1, 0, 0];
    assert bits[..3] == bits && bits[3..] == [];
    assert bits[..2] == [1, 0] && bits[..2][..1] == [1] && bits[..2][..1][..0] == [];
    assert FromDigits([1], 2) == 1;
    assert FromDigits([1, 0], 2) == 2;
    assert FromDigits(bits, 2) == 4;
  }

  /** `checkImageLSB` on decoded pixels: the first flag match in the text the collected
      bytes decode to, when more than five bytes were collected. `decode` stands for
      `TextDecoder`. */
  function LsbProbe(pixels: seq<byte>, decode: seq<byte> -> string): (r: Option<Finding>)
    requires |pixels| % 4 == 0
    ensures r.Some? ==> |ProbeBytes(StegoCodec.Lsbs(pixels, ProbeBits))| > 5
    ensures r.Some? ==> r.value.kind == FlagType && r.value.severity == Critical && FlagText(r.value.content)
  {
    var bytes := ProbeBytes(StegoCodec.Lsbs(pixels, ProbeBits));
    if |bytes| <= 5 then None
    else
      var msg := decode(bytes);
      var spans := FindAll(msg);
      if |spans| == 0 then None
      else
        FindFromSound(msg, 0);
        MatchAtSound(msg, spans[0].start);
        Some(Finding(FlagType, msg[spans[0].start..spans[0].end], "Visual LSB Analysis detected a flag.",
                     Critical, "Image LSB Extraction"))
  }

  /** Given enough bytes, any flag-shaped piece of the decoded text is found, and the
      finding is the leftmost match: it starts no later than that piece. */
  lemma LsbProbeComplete(pixels: seq<byte>, decode: seq<byte> -> string, i: nat, e: nat)
    requires |pixels| % 4 == 0
    requires |ProbeBytes(StegoCodec.Lsbs(pixels, ProbeBits))| > 5
    requires var msg := decode(ProbeBytes(StegoCodec.Lsbs(pixels, ProbeBits)));
             i <= e <= |msg| && FlagText(msg[i..e])
    ensures var msg := decode(ProbeBytes(StegoCodec.Lsbs(pixels, ProbeBits)));
            var r := LsbProbe(pixels, decode);
            r.Some? && exists j :: 0 <= j <= i && StartsWith(msg[j..], r.value.content)
  {
    var msg := decode(ProbeBytes(StegoCodec.Lsbs(pixels, ProbeBits)));
    FirstMatchBefore(msg, i, e);
    var s := FindAll(msg)[0];
    var c := msg[s.start..s.end];
    assert msg[s.start..][..|c|] == c;
  }

  /** A flag-shaped piece of a text is preceded, or started, by the first match. */
  lemma FirstMatchBefore(msg: string, i: nat, e: nat)
    requires i <= e <= |msg| && FlagText(msg[i..e])
    ensures |FindAll(msg)| > 0
    ensures FindAll(msg)[0].start <= i && FindAll(msg)[0].start < FindAll(msg)[0].end <= |msg|
  {
    MatchAtComplete(msg, i, e);
    FindFromFirstGap(msg, 0);
    FindFromSound(msg, 0);
  }

  // ---------------------------------------------------------------- reports

  datatype Report = Report(
    targetName: string,
    targetType: string,
    findings: seq<Finding>,
    recommendations: seq<Tool>)

  /** The finding for a target on a private network. */
  const PrivateNetworkFinding: Finding :=
    Finding(SuspiciousType, "Private Network Class", "Target is on a local private network.", Low, "IP Class Analysis")

  function AddressFinding(target: string): Finding
  {
    Finding(InfoType, target, "Target identified as IPv4 Address.", Info, "Format Validation")
  }

  function UrlFinding(target: string): Finding
  {
    Finding(InfoType, target, "Target identified as Web URL.", Info, "Format Validation")
  }

  /** The type `startIpScan` gives a trimmed target: the address test first, then the URL
      test. */
  function TargetType(target: string): string
  {
    if IsIPv4(target) then "IP Address" else if IsUrl(target) then "URL" else "Raw Text / Hash"
  }

  /** The findings of `startIpScan` before sorting. `recursiveDecode` stands for the
      Base64 pass. */
  function TargetFindings(target: string, recursiveDecode: string -> seq<Finding>): seq<Finding>
  {
    if IsIPv4(target) then
      [AddressFinding(target)] + (if IsPrivateNetwork(target) then [PrivateNetworkFinding] else [])
    else if IsUrl(target) then [UrlFinding(target)]
    else FlagFindings(target, "Raw Input") + recursiveDecode(target)
  }

  /** `startIpScan`: nothing for an empty input; otherwise the trimmed target, its type,
      its findings most severe first and the recommendations for its type. */
  function ScanTarget(input: string, recursiveDecode: string -> seq<Finding>): (r: Option<Report>)
    ensures r.None? <==> input == ""
    ensures r.Some? ==> r.value.targetName == Trim(input)
    ensures r.Some? ==> multiset(r.value.findings) == multiset(TargetFindings(Trim(input), recursiveDecode))
    ensures r.Some? ==> SortedDesc(r.value.findings, FindingScore)
  {
    if input == "" then None
    else
      var target := Trim(input);
      var kind := TargetType(target);
      Some(Report(target, kind, SortFindings(TargetFindings(target, recursiveDecode)), Recommendations(kind)))
  }

  /** An address gets the private-network finding first when it is private, then the
      format finding, and the web tool. */
  lemma AddressReport(input: string, recursiveDecode: string -> seq<Finding>)
    requires input != "" && IsIPv4(Trim(input))
    ensures var t := Trim(input);
            var r := ScanTarget(input, recursiveDecode).value;
            r.targetType == "IP Address"
            && r.findings == (if IsPrivateNetwork(t) then [PrivateNetworkFinding] else []) + [AddressFinding(t)]
            && r.recommendations == [WebExploitation]
  {
    var t := Trim(input);
    TargetRecommendations();
    AddressFindings(t, recursiveDecode);
  }

  lemma AddressFindings(t: string, recursiveDecode: string -> seq<Finding>)
    requires IsIPv4(t)
    ensures SortFindings(TargetFindings(t, recursiveDecode))
            == (if IsPrivateNetwork(t) then [PrivateNetworkFinding] else []) + [AddressFinding(t)]
  {
    if IsPrivateNetwork(t) {
      assert TargetFindings(t, recursiveDecode) == [AddressFinding(t), PrivateNetworkFinding];
      SortPair(AddressFinding(t), PrivateNetworkFinding);
    } else {
      assert TargetFindings(t, recursiveDecode) == [AddressFinding(t)];
      SortFindingsSorted([AddressFinding(t)]);
    }
  }

  /** Two findings of different severity are reported most severe first. */
  lemma SortPair(a: Finding, b: Finding)
    requires FindingScore(a) < FindingScore(b)
    ensures SortFindings([a, b]) == [b, a]
  {
    var r := SortFindings([a, b]);
    assert |multiset(r)| == 2;
    assert r[0] in multiset(r) && r[1] in multiset(r);
    assert multiset(r) == multiset{a, b};
    assert SortedDesc(r, FindingScore);
  }

  /** A URL that is not an address gets one format finding and the web tool. */
  lemma UrlReport(input: string, recursiveDecode: string -> seq<Finding>)
    requires input != "" && !IsIPv4(Trim(input)) && IsUrl(Trim(input))
    ensures var t := Trim(input);
            var r := ScanTarget(input, recursiveDecode).value;
            r.targetType == "URL" && r.findings == [UrlFinding(t)] && r.recommendations == [WebExploitation]
  {
    var t := Trim(input);
    TargetRecommendations();
    SortFindingsSorted([UrlFinding(t)]);
  }

  /** Any other target is raw text: its flag findings open the report, in text order, and
      cryptography and manual forensics are recommended. */
  lemma RawTextReport(input: string, recursiveDecode: string -> seq<Finding>)
    requires input != "" && !IsIPv4(Trim(input)) && !IsUrl(Trim(input))
    ensures var t := Trim(input);
            var r := ScanTarget(input, recursiveDecode).value;
            var flags := FlagFindings(t, "Raw Input");
            r.targetType == "Raw Text / Hash"
            && |flags| <= |r.findings| && r.findings[..|flags|] == flags
            && r.recommendations == [Cryptography, Forensics]
  {
    var t := Trim(input);
    TargetRecommendations();
    FlagsLead(FlagFindings(t, "Raw Input"), recursiveDecode(t));
  }

  /** Sorting puts critical findings first and keeps their order, so the flag findings,
      all critical, come before everything else. */
  lemma FlagsLead(flags: seq<Finding>, rest: seq<Finding>)
    requires forall k :: 0 <= k < |flags| ==> flags[k].severity == Critical
    ensures var r := SortFindings(flags + rest);
            |flags| <= |r| && r[..|flags|] == flags
  {
    var all := flags + rest;
    var r := SortFindings(all);
    SortFindingsStable(all, Critical);
    WithKeyAppend(flags, rest, FindingScore, 5);
    AllCritical(flags);
    assert AtMost(r, FindingScore, 5);
    TopKeyPrefix(r, FindingScore, 5);
    var top := WithKey(r, FindingScore, 5);
    assert top == flags + WithKey(rest, FindingScore, 5);
    assert r[..|flags|] == top[..|flags|];
  }

  lemma {:induction false} AllCritical(flags: seq<Finding>)
    requires forall k :: 0 <= k < |flags| ==> flags[k].severity == Critical
    ensures WithKey(flags, FindingScore, 5) == flags
    decreases |flags|
  {
    if |flags| > 0 {
      AllCritical(flags[1..]);
      assert [flags[0]] + flags[1..] == flags;
    }
  }

  /** The LSB probe's contribution to a file report: run only on a file whose type name
      mentions an image and whose pixels decoded. */
  function FileProbe(kind: string, pixels: Option<seq<byte>>, textDecoder: seq<byte> -> string): (r: Option<Finding>)
    requires pixels.Some? ==> |pixels.value| % 4 == 0
    ensures r.Some? ==> Contains(kind, "Image") && pixels.Some? && r == LsbProbe(pixels.value, textDecoder)
  {
    if Contains(kind, "Image") && pixels.Some? then LsbProbe(pixels.value, textDecoder) else None
  }

  /** What `startFileScan` finds before sorting: the flag findings of the strings pass,
      what the Base64 pass finds in it, and the LSB probe's finding. */
  function FileFindings(kind: string, buf: seq<byte>, recursiveDecode: string -> seq<Finding>,
                        pixels: Option<seq<byte>>, textDecoder: seq<byte> -> string): seq<Finding>
    requires pixels.Some? ==> |pixels.value| % 4 == 0
  {
    var text := StringsPass(buf);
    var lsb := FileProbe(kind, pixels, textDecoder);
    FlagFindings(text, "File Strings") + (recursiveDecode(text) + (if lsb.Some? then [lsb.value] else []))
  }

  /** `startFileScan`: the file's type, its findings most severe first, and the
      recommendations for its type. `pixels` is the decoded image, if it loads. */
  function ScanFile(name: string, buf: seq<byte>, recursiveDecode: string -> seq<Finding>,
                    pixels: Option<seq<byte>>, textDecoder: seq<byte> -> string): (r: Report)
    requires pixels.Some? ==> |pixels.value| % 4 == 0
    ensures r.targetName == name
    ensures multiset(r.findings) == multiset(FileFindings(r.targetType, buf, recursiveDecode, pixels, textDecoder))
    ensures SortedDesc(r.findings, FindingScore)
  {
    var kind := TypeName(IdentifyMagic(buf));
    Report(name, kind, SortFindings(FileFindings(kind, buf, recursiveDecode, pixels, textDecoder)), Recommendations(kind))
  }

  /** The type is read from the signature bytes, and the tools follow from it. */
  lemma FileReportType(name: string, buf: seq<byte>, recursiveDecode: string -> seq<Finding>,
                       pixels: Option<seq<byte>>, textDecoder: seq<byte> -> string)
    requires pixels.Some? ==> |pixels.value| % 4 == 0
    ensures var r := ScanFile(name, buf, recursiveDecode, pixels, textDecoder);
            var t := IdentifyByBytes(buf);
            r.targetType == TypeName(t)
            && r.recommendations == (if IsImage(t) then [Steganography]
                                     else if t == UnknownBinary then [Cryptography, Forensics] else [])
  {
    IdentifyMagicBytes(buf);
    FileRecommendations(IdentifyMagic(buf));
  }

  /** The flag findings of the strings pass open the report, in text order. */
  lemma FileReportFlags(name: string, buf: seq<byte>, recursiveDecode: string -> seq<Finding>,
                        pixels: Option<seq<byte>>, textDecoder: seq<byte> -> string)
    requires pixels.Some? ==> |pixels.value| % 4 == 0
    ensures var r := ScanFile(name, buf, recursiveDecode, pixels, textDecoder);
            var flags := FlagFindings(StringsPass(buf), "File Strings");
            |flags| <= |r.findings| && r.findings[..|flags|] == flags
  {
    var kind := TypeName(IdentifyMagic(buf));
    var text := StringsPass(buf);
    var lsb := FileProbe(kind, pixels, textDecoder);
    FlagsLead(FlagFindings(text, "File Strings"), recursiveDecode(text) + (if lsb.Some? then [lsb.value] else []));
  }

  /** The LSB probe adds a finding exactly for the image formats, and only when it finds a
      flag. */
  lemma FileReportProbe(name: string, buf: seq<byte>, recursiveDecode: string -> seq<Finding>,
                        pixels: Option<seq<byte>>, textDecoder: seq<byte> -> string)
    requires pixels.Some? ==> |pixels.value| % 4 == 0
    ensures var r := ScanFile(name, buf, recursiveDecode, pixels, textDecoder);
            var t := IdentifyByBytes(buf);
            var text := StringsPass(buf);
            var probed := IsImage(t) && pixels.Some? && LsbProbe(pixels.value, textDecoder).Some?;
            |r.findings| == |FlagFindings(text, "File Strings")| + |recursiveDecode(text)| + (if probed then 1 else 0)
  {
    IdentifyMagicBytes(buf);
    ImageTypeName(IdentifyMagic(buf));
    var r := ScanFile(name, buf, recursiveDecode, pixels, textDecoder);
    var found := FileFindings(r.targetType, buf, recursiveDecode, pixels, textDecoder);
    assert |r.findings| == |found| by {
      assert |multiset(r.findings)| == |multiset(found)|;
    }
  }
}
