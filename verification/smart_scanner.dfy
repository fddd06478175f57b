/** The rules of the smart scanner (`components/smart-scanner.tsx`): file-type guessing
    from the first four bytes, the tools recommended for a target type, the printable-text
    pass over a file, and the IPv4 / URL classifiers applied to a typed-in target. */
module SmartScanner {
  import opened Results
  import opened JsText
  import opened Bytes
  import opened RadixText

  // ---------------------------------------------------------------- magic bytes

  /** The type names `identifyMagicBytes` can return. */
  datatype FileType = Png | Jpeg | Gif | Pdf | Zip | Elf | WindowsPe | SevenZip | Bmp | UnknownBinary

  function TypeName(t: FileType): string
  {
    match t
    case Png => "PNG Image"
    case Jpeg => "JPEG Image"
    case Gif => "GIF Image"
    case Pdf => "PDF Document"
    case Zip => "ZIP Archive"
    case Elf => "ELF Executable"
    case WindowsPe => "Windows PE Executable"
    case SevenZip => "7-Zip Archive"
    case Bmp => "BMP Image"
    case UnknownBinary => "Unknown Binary"
  }

  /** The signatures, in the order the source lists them, as byte sequences. */
  const SignatureBytes: seq<(seq<byte>, FileType)> := [
    ([0x89, 0x50, 0x4E, 0x47], Png),
    ([0xFF, 0xD8, 0xFF, 0xE0], Jpeg),
    ([0xFF, 0xD8, 0xFF, 0xE1], Jpeg),
    ([0x47, 0x49, 0x46, 0x38], Gif),
    ([0x25, 0x50, 0x44, 0x46], Pdf),
    ([0x50, 0x4B, 0x03, 0x04], Zip),
    ([0x7F, 0x45, 0x4C, 0x46], Elf),
    ([0x4D, 0x5A, 0x90, 0x00], WindowsPe),
    ([0x37, 0x7A, 0xBC, 0xAF], SevenZip)
  ]

  /** The signature object: each key is the upper-case hex spelling of its four bytes,
      such as "89504E47" for PNG. */
  const Signatures: seq<(string, FileType)> := SpelledKeys(SignatureBytes)

  function SpelledKeys<V>(sigs: seq<(seq<byte>, V)>): (keys: seq<(string, V)>)
    ensures |keys| == |sigs|
    ensures forall i :: 0 <= i < |sigs| ==> keys[i] == (Upper(HexJoin(sigs[i].0)), sigs[i].1)
  {
    seq(|sigs|, i requires 0 <= i < |sigs| => (Upper(HexJoin(sigs[i].0)), sigs[i].1))
  }

  /** The upper-case hex spelling of the first four bytes (fewer for a shorter file). */
  function Header(file: seq<byte>): (h: string)
    ensures |h| == 2 * Min(4, |file|)
  {
    Upper(HexJoin(file[..Min(4, |file|)]))
  }

  /** `identifyMagicBytes`: an exact signature, else a BMP prefix, else unknown. */
  function IdentifyMagic(file: seq<byte>): FileType
  {
    var h := Header(file);
    match Lookup(Signatures, h)
    case Some(t) => t
    case None => if StartsWith(h, "424D") then Bmp else UnknownBinary
  }

  /** File-type guessing stated on bytes: the first table entry the file begins with, else
      "BMP Image" for a file beginning 42 4D, else "Unknown Binary". */
  function IdentifyByBytes(file: seq<byte>): FileType
  {
    match PrefixLookup(SignatureBytes, file)
    case Some(t) => t
    case None => if StartsWith(file, [0x42, 0x4D]) then Bmp else UnknownBinary
  }

  /** Comparing hex spellings is comparing bytes: the string table and the byte table
      classify every file alike. In particular only the first four bytes matter. */
  lemma IdentifyMagicBytes(file: seq<byte>)
    ensures IdentifyMagic(file) == IdentifyByBytes(file)
  {
    assert forall i :: 0 <= i < |SignatureBytes| ==> |SignatureBytes[i].0| == 4;
    SignaturesAgree(Signatures, SignatureBytes, file);
    BmpPrefix(file);
  }

  /** A header equals the spelling of a four-byte signature exactly when the file begins
      with that signature. */
  lemma HeaderMatches(file: seq<byte>, sig: seq<byte>)
    requires |sig| == 4
    ensures (Header(file) == Upper(HexJoin(sig))) <==> StartsWith(file, sig)
  {
    var p := file[..Min(4, |file|)];
    if Header(file) == Upper(HexJoin(sig)) {
      UpperHexJoinInjective(p, sig);
    }
  }

  lemma {:induction false} SignaturesAgree<V>(keys: seq<(string, V)>, sigs: seq<(seq<byte>, V)>, file: seq<byte>)
    requires |keys| == |sigs|
    requires forall i :: 0 <= i < |sigs| ==>
               |sigs[i].0| == 4 && keys[i] == (Upper(HexJoin(sigs[i].0)), sigs[i].1)
    ensures Lookup(keys, Header(file)) == PrefixLookup(sigs, file)
    decreases |keys|
  {
    if |keys| > 0 {
      HeaderMatches(file, sigs[0].0);
      assert forall i :: 0 <= i < |sigs| - 1 ==> sigs[1..][i] == sigs[i + 1] && keys[1..][i] == keys[i + 1];
      SignaturesAgree(keys[1..], sigs[1..], file);
    }
  }

  /** The header begins "424D" exactly when the file begins with the bytes 42 4D. */
  lemma BmpPrefix(file: seq<byte>)
    ensures StartsWith(Header(file), "424D") <==> StartsWith(file, [0x42, 0x4D])
  {
    var p := file[..Min(4, |file|)];
    var bm: seq<byte> := [0x42, 0x4D];
    BmSpelling();
    if |p| >= 2 {
      assert p == p[..2] + p[2..];
      HexJoinAppend(p[..2], p[2..]);
      UpperAppend(HexJoin(p[..2]), HexJoin(p[2..]));
      var h := Header(file);
      assert h[..4] == Upper(HexJoin(p[..2]));
      if h[..4] == "424D" {
        UpperHexJoinInjective(p[..2], bm);
      }
      assert p[..2] == file[..2];
    }
  }

  lemma BmSpelling()
    ensures Upper(HexJoin([0x42, 0x4D])) == "424D"
  {
    var bm: seq<byte> := [0x42, 0x4D];
    UpperHexJoin(bm);
    UpperHexJoin(bm[1..]);
    assert bm[1..][1..] == [];
    assert HexJoin([]) == [];
  }

  // ---------------------------------------------------------------- recommendations

  datatype Tool = Steganography | Cryptography | Forensics | WebExploitation

  /** The page each recommendation links to. */
  function ToolPath(t: Tool): string
  {
    match t
    case Steganography => "/stego"
    case Cryptography => "/crypto"
    case Forensics => "/forensics"
    case WebExploitation => "/web"
  }

  /** `getRecommendations`: which tools a target type calls for, in a fixed order. */
  function Recommendations(kind: string): seq<Tool>
  {
    (if Contains(kind, "Image") then [Steganography] else [])
    + (if Contains(kind, "Text") || kind == "Unknown Binary" then [Cryptography, Forensics] else [])
    + (if kind == "IP Address" || kind == "URL" then [WebExploitation] else [])
  }

  /** Each tool is recommended exactly under its condition, at most once, in a fixed order. */
  lemma RecommendationsSpec(kind: string)
    ensures var r := Recommendations(kind);
            && ((Steganography in r) <==> Contains(kind, "Image"))
            && ((Cryptography in r) <==> (Contains(kind, "Text") || kind == "Unknown Binary"))
            && ((Forensics in r) <==> (Contains(kind, "Text") || kind == "Unknown Binary"))
            && ((WebExploitation in r) <==> (kind == "IP Address" || kind == "URL"))
            && forall i, j :: 0 <= i < j < |r| ==> ToolRank(r[i]) < ToolRank(r[j])
  {
  }

  /** The recommendations for a type name other than the two network ones, from whether
      it mentions "Image" and whether it mentions "Text". */
  lemma RecommendationsOf(kind: string)
    requires kind != "IP Address" && kind != "URL"
    ensures Recommendations(kind) ==
              (if Contains(kind, "Image") then [Steganography] else [])
              + (if Contains(kind, "Text") || kind == "Unknown Binary" then [Cryptography, Forensics] else [])
  {
  }

  /** Position of a tool in the recommendation list. */
  function ToolRank(t: Tool): nat
  {
    match t
    case Steganography => 0
    case Cryptography => 1
    case Forensics => 2
    case WebExploitation => 3
  }

  predicate IsImage(t: FileType)
  {
    t == Png || t == Jpeg || t == Gif || t == Bmp
  }

  /** What a file scan recommends: the steganography tool for the image formats,
      cryptography and manual forensics for an unknown binary, and nothing for the other
      recognised formats. */
  lemma FileRecommendations(t: FileType)
    ensures Recommendations(TypeName(t)) ==
              if IsImage(t) then [Steganography]
              else if t == UnknownBinary then [Cryptography, Forensics]
              else []
  {
    if IsImage(t) {
      ImageMentions(t);
    } else {
      OtherMentions(t);
    }
    RecommendationsOf(TypeName(t));
  }

  /** Image type names mention "Image" and not "Text". */
  lemma ImageMentions(t: FileType)
    requires IsImage(t)
    ensures Contains(TypeName(t), "Image") && !Contains(TypeName(t), "Text")
  {
    match t
    case Png =>
      EndsInImage("PNG ");
      assert "PNG " + "Image" == "PNG Image";
      Absent("PNG Image", "Text", 0);
    case Jpeg =>
      EndsInImage("JPEG ");
      assert "JPEG " + "Image" == "JPEG Image";
      Absent("JPEG Image", "Text", 0);
    case Gif =>
      EndsInImage("GIF ");
      assert "GIF " + "Image" == "GIF Image";
      Absent("GIF Image", "Text", 0);
    case Bmp =>
      EndsInImage("BMP ");
      assert "BMP " + "Image" == "BMP Image";
      Absent("BMP Image", "Text", 0);
  }

  lemma EndsInImage(pre: string)
    ensures Contains(pre + "Image", "Image")
  {
    var s := pre + "Image";
    assert s[|pre|..|pre| + 5] == "Image";
    ContainsAt(s, "Image", |pre|);
  }

  /** The other type names mention neither "Image" nor "Text". */
  lemma OtherMentions(t: FileType)
    requires !IsImage(t)
    ensures !Contains(TypeName(t), "Image") && !Contains(TypeName(t), "Text")
  {
    if t == Pdf || t == Zip || t == Elf {
      DocumentMentions(t);
    } else {
      ProgramMentions(t);
    }
  }

  lemma DocumentMentions(t: FileType)
    requires t == Pdf || t == Zip || t == Elf
    ensures !Contains(TypeName(t), "Image") && !Contains(TypeName(t), "Text")
  {
    match t
    case Pdf =>
      Absent("PDF Document", "Image", 0);
      Absent("PDF Document", "Text", 0);
    case Zip =>
      Absent("ZIP Archive", "Image", 1);
      Absent("ZIP Archive", "Text", 0);
    case Elf =>
      Absent("ELF Executable", "Image", 0);
      Absent("ELF Executable", "Text", 0);
  }

  lemma ProgramMentions(t: FileType)
    requires t == WindowsPe || t == SevenZip || t == UnknownBinary
    ensures !Contains(TypeName(t), "Image") && !Contains(TypeName(t), "Text")
  {
    match t
    case WindowsPe =>
      Absent("Windows PE Executable", "Image", 0);
      Absent("Windows PE Executable", "Text", 0);
    case SevenZip =>
      Absent("7-Zip Archive", "Image", 0);
      Absent("7-Zip Archive", "Text", 0);
    case UnknownBinary =>
      Absent("Unknown Binary", "Image", 0);
      Absent("Unknown Binary", "Text", 0);
  }

  /** An image type is exactly one whose name mentions "Image". */
  lemma ImageTypeName(t: FileType)
    ensures Contains(TypeName(t), "Image") <==> IsImage(t)
  {
    if IsImage(t) {
      ImageMentions(t);
    } else {
      OtherMentions(t);
    }
  }

  /** What a typed-in target recommends: web exploitation for an IPv4 address or a URL,
      cryptography and manual forensics for anything else. */
  lemma TargetRecommendations()
    ensures Recommendations("IP Address") == [WebExploitation]
    ensures Recommendations("URL") == [WebExploitation]
    ensures Recommendations("Raw Text / Hash") == [Cryptography, Forensics]
  {
    Absent("IP Address", "Image", 1);
    Absent("IP Address", "Text", 0);
    Absent("URL", "Image", 0);
    Absent("URL", "Text", 0);
    assert "Raw Text / Hash"[4..8] == "Text";
    ContainsAt("Raw Text / Hash", "Text", 4);
    Absent("Raw Text / Hash", "Image", 0);
  }

  // ---------------------------------------------------------------- strings pass

  /** The bytes the strings pass copies: printable ASCII, line feed and carriage return. */
  predicate Kept(b: int)
  {
    32 <= b <= 126 || b == 10 || b == 13
  }

  /** The strings pass of `startFileScan`, byte by byte: a kept byte adds its character,
      any other byte adds one space unless the text so far already ends in a space. */
  function StringsPass(buf: seq<byte>): (text: string)
    ensures |text| <= |buf|
    ensures forall i :: 0 <= i < |text| ==> Kept(text[i] as int)
    decreases |buf|
  {
    if |buf| == 0 then ""
    else
      var acc := StringsPass(buf[..|buf| - 1]);
      var b := buf[|buf| - 1];
      if Kept(b) then acc + [b as char]
      else if EndsInSpace(acc) then acc
      else acc + " "
  }

  /** `text.slice(-1) === " "`; false for the empty text. */
  predicate EndsInSpace(text: string)
  {
    |text| > 0 && text[|text| - 1] == ' '
  }

  /** A buffer of kept bytes comes through unchanged. */
  lemma {:induction false} StringsPrintable(buf: seq<byte>)
    requires forall i :: 0 <= i < |buf| ==> Kept(buf[i])
    ensures StringsPass(buf) == Latin1(buf)
    decreases |buf|
  {
    if |buf| > 0 {
      var init := buf[..|buf| - 1];
      StringsPrintable(init);
      assert Latin1(buf) == Latin1(init) + [buf[|buf| - 1] as char];
    }
  }

  /** The characters of a text other than spaces, in order. */
  function NonSpace(text: string): (r: string)
    ensures |r| <= |text|
  {
    if |text| == 0 then []
    else NonSpace(text[..|text| - 1]) + (if text[|text| - 1] == ' ' then [] else [text[|text| - 1]])
  }

  /** The kept bytes of a buffer, in order. */
  function KeptBytes(buf: seq<byte>): (r: seq<byte>)
    ensures |r| <= |buf|
  {
    if |buf| == 0 then []
    else KeptBytes(buf[..|buf| - 1]) + (if Kept(buf[|buf| - 1]) then [buf[|buf| - 1]] else [])
  }

  lemma NonSpaceSnoc(text: string, c: char)
    ensures NonSpace(text + [c]) == NonSpace(text) + (if c == ' ' then [] else [c])
  {
    assert (text + [c])[..|text|] == text;
  }

  /** Apart from spaces, the text is exactly the kept bytes: nothing kept is lost and
      nothing else gets in. */
  lemma {:induction false} StringsKeepText(buf: seq<byte>)
    ensures NonSpace(StringsPass(buf)) == NonSpace(Latin1(KeptBytes(buf)))
    decreases |buf|
  {
    if |buf| > 0 {
      var init, b := buf[..|buf| - 1], buf[|buf| - 1];
      StringsKeepText(init);
      var acc := StringsPass(init);
      var ks := KeptBytes(init);
      if Kept(b) {
        NonSpaceSnoc(acc, b as char);
        assert Latin1(ks + [b]) == Latin1(ks) + [b as char];
        NonSpaceSnoc(Latin1(ks), b as char);
      } else {
        assert KeptBytes(buf) == ks;
        if !EndsInSpace(acc) {
          NonSpaceSnoc(acc, ' ');
        }
      }
    }
  }

  /** A run of bytes that are not kept adds a single space, and none when the text
      already ends in one. */
  lemma {:induction false} StringsJunkRun(pre: seq<byte>, junk: seq<byte>)
    requires |junk| > 0 && forall i :: 0 <= i < |junk| ==> !Kept(junk[i])
    ensures StringsPass(pre + junk) ==
              StringsPass(pre) + (if EndsInSpace(StringsPass(pre)) then "" else " ")
    decreases |junk|
  {
    var buf := pre + junk;
    assert buf[..|buf| - 1] == pre + junk[..|junk| - 1];
    if |junk| > 1 {
      StringsJunkRun(pre, junk[..|junk| - 1]);
    } else {
      assert pre + junk[..0] == pre;
    }
  }

  // ---------------------------------------------------------------- target classifiers

  /** The length of the run of ASCII digits at the front of `s`. */
  function DigitRun(s: string): (n: nat)
    ensures n <= |s|
    ensures forall j :: 0 <= j < n ==> IsAsciiDigit(s[j])
    ensures n < |s| ==> !IsAsciiDigit(s[n])
  {
    if |s| > 0 && IsAsciiDigit(s[0]) then
      var n := 1 + DigitRun(s[1..]);
      assert forall j :: 1 <= j < n ==> s[j] == s[1..][j - 1];
      n
    else 0
  }

  /** `/^(?:[0-9]{1,3}\.){3}[0-9]{1,3}$/` read group by group: `n` more groups of one to
      three ASCII digits, each but the last followed by a dot, and nothing after the last.
      Taking a group's digits greedily loses nothing, since a shorter group would leave a
      digit where the dot or the end must come. */
  predicate DottedGroups(s: string, n: nat)
    requires n >= 1
    decreases n
  {
    var d := DigitRun(s);
    1 <= d <= 3 &&
    if n == 1 then d == |s| else d < |s| && s[d] == '.' && DottedGroups(s[d + 1..], n - 1)
  }

  /** The IPv4 test of `startIpScan`: no check that a group is at most 255. */
  predicate IsIPv4(s: string)
  {
    DottedGroups(s, 4)
  }

  /** One to three ASCII digits. */
  predicate IsGroup(p: string)
  {
    1 <= |p| <= 3 && forall j :: 0 <= j < |p| ==> IsAsciiDigit(p[j])
  }

  /** The address test, stated on `split(".")`: exactly four pieces, each one to three
      digits. */
  lemma IPv4Split(s: string)
    ensures IsIPv4(s) <==> |Split(s, '.')| == 4 && forall i :: 0 <= i < 4 ==> IsGroup(Split(s, '.')[i])
  {
    DottedGroupsSplit(s, 4);
  }

  /** `n` pieces, each a group. */
  predicate Groups(parts: seq<string>, n: nat)
  {
    |parts| == n && forall i :: 0 <= i < n ==> IsGroup(parts[i])
  }

  lemma {:induction false} DottedGroupsSplit(s: string, n: nat)
    requires n >= 1
    ensures DottedGroups(s, n) <==> Groups(Split(s, '.'), n)
    decreases n
  {
    var d := DigitRun(s);
    if d == |s| {
      DigitsOnlySplit(s, n);
    } else if s[d] == '.' {
      var p, rest := s[..d], s[d + 1..];
      assert s == p + ['.'] + rest;
      assert forall j :: 0 <= j < |p| ==> p[j] == s[j];
      SplitCons(p, '.', rest);
      if n > 1 {
        DottedGroupsSplit(rest, n - 1);
      }
      GroupsCons(p, Split(rest, '.'), n);
    } else {
      StrayCharSplit(s, n);
    }
  }

  /** A text of digits only is one piece, and a group exactly when it is one group. */
  lemma DigitsOnlySplit(s: string, n: nat)
    requires n >= 1 && DigitRun(s) == |s|
    ensures DottedGroups(s, n) <==> Groups(Split(s, '.'), n)
  {
    assert forall j :: 0 <= j < |s| ==> s[j] != '.';
    SplitFree(s, '.');
    assert [s][0] == s;
    assert Groups([s], n) <==> n == 1 && IsGroup(s);
  }

  /** A character that is neither a digit nor a dot after the first digits spoils both
      readings. */
  lemma StrayCharSplit(s: string, n: nat)
    requires n >= 1 && DigitRun(s) < |s| && s[DigitRun(s)] != '.'
    ensures !DottedGroups(s, n) && !Groups(Split(s, '.'), n)
  {
    var d := DigitRun(s);
    SplitHead(s, '.', d + 1);
    var q := Split(s, '.')[0];
    assert q[d] == s[d] && !IsAsciiDigit(q[d]);
    assert !IsGroup(q);
  }

  lemma GroupsCons(p: string, ps: seq<string>, n: nat)
    requires n >= 1
    ensures Groups([p] + ps, n) <==> IsGroup(p) && Groups(ps, n - 1)
  {
    var q := [p] + ps;
    assert forall i :: 1 <= i < |q| ==> q[i] == ps[i - 1];
    if IsGroup(p) && Groups(ps, n - 1) {
      assert forall i :: 0 <= i < n ==> IsGroup(q[i]);
    }
    if Groups(q, n) {
      assert q[0] == p;
      forall i | 0 <= i < n - 1
        ensures IsGroup(ps[i])
      {
        assert ps[i] == q[i + 1];
      }
    }
  }

  /** The URL test of `startIpScan`: `/^(http|https):\/\/[^ "]+$/`. */
  predicate IsUrl(s: string)
  {
    UrlWithScheme(s, "http") || UrlWithScheme(s, "https")
  }

  /** The scheme, "://", then one or more characters none of which is a space or a
      double quote. */
  predicate UrlWithScheme(s: string, scheme: string)
  {
    var head := scheme + "://";
    StartsWith(s, head) && |s| > |head| && forall j :: |head| <= j < |s| ==> s[j] != ' ' && s[j] != '"'
  }

  /** The two tests never both pass, so trying the address test first decides nothing. */
  lemma IPv4NotUrl(s: string)
    requires IsIPv4(s)
    ensures !IsUrl(s)
  {
    assert IsAsciiDigit(s[0]);
    assert ("http" + "://")[0] == 'h' && ("https" + "://")[0] == 'h';
  }

  /** The private-network test: the target starts with "192.168" or "10.". */
  predicate IsPrivateNetwork(target: string)
  {
    StartsWith(target, "192.168") || StartsWith(target, "10.")
  }
}
