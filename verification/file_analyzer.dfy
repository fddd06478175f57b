/** The file analyzer (`components/file-analyzer.tsx`): the hex view of a file's first
    512 bytes, the type read from the `MAGIC_BYTES` table by comparing spaced hex strings,
    and the printable strings of the first mebibyte. */
module FileAnalyzer {
  import opened Results
  import opened JsText
  import opened Bytes
  import opened RadixText

  // ---------------------------------------------------------------- hex view

  /** Bytes shown in the hex view. */
  const HexViewBytes: nat := 512

  /** One two-digit upper-case hex pair per byte. */
  function Pairs(bs: seq<byte>): (ps: seq<string>)
    ensures |ps| == |bs|
  {
    seq(|bs|, i requires 0 <= i < |bs| => UpperHex2(bs[i]))
  }

  /** `hexParts`: `b.toString(16).padStart(2, "0").toUpperCase()` for each of the first
      512 bytes, as `HexPartsSpelling` shows. */
  function HexParts(file: seq<byte>): (ps: seq<string>)
    ensures |ps| == Min(|file|, HexViewBytes)
    ensures forall i :: 0 <= i < |ps| ==> |ps[i]| == 2 && AllDigits(ps[i], 16)
  {
    UpperHex2Digits();
    Pairs(file[..Min(|file|, HexViewBytes)])
  }

  lemma UpperHex2Digits()
    ensures forall b: byte :: AllDigits(UpperHex2(b), 16)
  {
    forall b: byte
      ensures AllDigits(UpperHex2(b), 16)
    {
      UpperHex2Value(b);
    }
  }

  /** Each part spells its byte the way JavaScript does, and reads back as that byte. */
  lemma HexPartsSpelling(file: seq<byte>, i: nat)
    requires i < Min(|file|, HexViewBytes)
    ensures HexParts(file)[i] == Upper(PaddedRadix(file[i], 16, 2))
    ensures 16 * DigitValue(HexParts(file)[i][0] as int) + DigitValue(HexParts(file)[i][1] as int) == file[i]
  {
    Hex2Padded(file[i]);
    UpperHex2Upper(file[i]);
    UpperHex2Value(file[i]);
  }

  /** `hexParts.join(" ")`. */
  function HexView(file: seq<byte>): string
  {
    Join(HexParts(file), ' ')
  }

  /** The view is three characters per byte shown, less the last separator, and splitting
      it at spaces gives the parts back. */
  lemma HexViewShape(file: seq<byte>)
    ensures |HexView(file)| == (if |file| == 0 then 0 else 3 * Min(|file|, HexViewBytes) - 1)
    ensures |file| > 0 ==> Split(HexView(file), ' ') == HexParts(file)
  {
    var ps := HexParts(file);
    JoinPairsLength(ps);
    if |file| > 0 {
      NoSpaceInPairs(ps);
      SplitJoin(ps, ' ');
    }
  }

  lemma {:induction false} JoinPairsLength(ps: seq<string>)
    requires forall i :: 0 <= i < |ps| ==> |ps[i]| == 2
    ensures |Join(ps, ' ')| == (if |ps| == 0 then 0 else 3 * |ps| - 1)
    decreases |ps|
  {
    if |ps| > 1 {
      JoinPairsLength(ps[1..]);
    }
  }

  lemma NoSpaceInPairs(ps: seq<string>)
    requires forall i :: 0 <= i < |ps| ==> AllDigits(ps[i], 16)
    ensures forall i :: 0 <= i < |ps| ==> ' ' !in ps[i]
  {
  }

  // ---------------------------------------------------------------- type detection

  /** The formats in `MAGIC_BYTES`. */
  datatype Format = Png | Jpeg | Pdf | Zip | Elf | WindowsPe | Gzip | Bzip2 | Rar | SevenZip | Ico | Gif

  function FormatName(f: Format): string
  {
    match f
    case Png => "PNG Image"
    case Jpeg => "JPEG Image"
    case Pdf => "PDF Document"
    case Zip => "ZIP Archive"
    case Elf => "ELF Executable"
    case WindowsPe => "Windows PE Executable"
    case Gzip => "GZIP Compressed"
    case Bzip2 => "BZIP2 Compressed"
    case Rar => "RAR Archive"
    case SevenZip => "7-Zip Archive"
    case Ico => "ICO Image"
    case Gif => "GIF Image"
  }

  /** The signatures of `MAGIC_BYTES`, in the table's (insertion) order. */
  const MagicBytes: seq<(seq<byte>, Format)> := [
    ([0x89, 0x50, 0x4E, 0x47], Png),
    ([0xFF, 0xD8, 0xFF], Jpeg),
    ([0x25, 0x50, 0x44, 0x46], Pdf),
    ([0x50, 0x4B, 0x03, 0x04], Zip),
    ([0x7F, 0x45, 0x4C, 0x46], Elf),
    ([0x4D, 0x5A], WindowsPe),
    ([0x1F, 0x8B], Gzip),
    ([0x42, 0x5A, 0x68], Bzip2),
    ([0x52, 0x61, 0x72, 0x21], Rar),
    ([0x37, 0x7A, 0xBC, 0xAF], SevenZip),
    ([0x00, 0x00, 0x01, 0x00], Ico),
    ([0x47, 0x49, 0x46, 0x38], Gif)
  ]

  /** A table key: the signature's upper-case hex pairs separated by single spaces. */
  function Spaced(sig: seq<byte>): string
  {
    Join(Pairs(sig), ' ')
  }

  function SpacedKeys<V>(table: seq<(seq<byte>, V)>): (keys: seq<(string, V)>)
    ensures |keys| == |table|
    ensures forall i :: 0 <= i < |table| ==> keys[i] == (Spaced(table[i].0), table[i].1)
  {
    seq(|table|, i requires 0 <= i < |table| => (Spaced(table[i].0), table[i].1))
  }

  /** `MAGIC_BYTES` as written: spaced hex keys. */
  const MagicKeys: seq<(string, Format)> := SpacedKeys(MagicBytes)

  /** `checkStr === magic`: the first as many hex parts as the key has space-separated
      pairs, joined with spaces, spell the key. */
  predicate KeyMatches(file: seq<byte>, magic: string)
  {
    var parts := HexParts(file);
    Join(parts[..Min(|Split(magic, ' ')|, |parts|)], ' ') == magic
  }

  /** The loop over `Object.entries(MAGIC_BYTES)`: the first entry whose key matches. */
  function FirstMatch<V>(file: seq<byte>, keys: seq<(string, V)>): (r: Option<V>)
    ensures r.Some? ==> exists i :: 0 <= i < |keys| && keys[i].1 == r.value && KeyMatches(file, keys[i].0)
    ensures r.None? <==> forall i :: 0 <= i < |keys| ==> !KeyMatches(file, keys[i].0)
  {
    if |keys| == 0 then None
    else if KeyMatches(file, keys[0].0) then Some(keys[0].1)
    else
      var r := FirstMatch(file, keys[1..]);
      assert forall i :: 1 <= i < |keys| ==> keys[i] == keys[1..][i - 1];
      r
  }

  /** The detected type: the first matching format, or "Unknown / Octet Stream". */
  function DetectType(file: seq<byte>): Option<Format>
  {
    FirstMatch(file, MagicKeys)
  }

  function TypeLabel(file: seq<byte>): string
  {
    match DetectType(file)
    case None => "Unknown / Octet Stream"
    case Some(f) => FormatName(f)
  }

  /** The detected type is the first format, in table order, whose signature bytes begin
      the file. */
  lemma DetectTypeIsPrefix(file: seq<byte>)
    ensures DetectType(file) == PrefixLookup(MagicBytes, file)
  {
    assert forall i :: 0 <= i < |MagicBytes| ==> 1 <= |MagicBytes[i].0| <= 4;
    KeysAgree(MagicBytes, file);
  }

  /** A file shorter than a signature never gets that signature's format from it. */
  lemma ShortFileNoMatch(file: seq<byte>, sig: seq<byte>)
    requires 1 <= |sig| <= HexViewBytes && |file| < |sig|
    ensures !KeyMatches(file, Spaced(sig))
  {
    KeyMatchIsPrefix(file, sig);
  }

  lemma {:induction false} KeysAgree<V>(table: seq<(seq<byte>, V)>, file: seq<byte>)
    requires forall i :: 0 <= i < |table| ==> 1 <= |table[i].0| <= HexViewBytes
    ensures FirstMatch(file, SpacedKeys(table)) == PrefixLookup(table, file)
    decreases |table|
  {
    if |table| > 0 {
      KeyMatchIsPrefix(file, table[0].0);
      assert SpacedKeys(table)[1..] == SpacedKeys(table[1..]);
      KeysAgree(table[1..], file);
    }
  }

  /** The string comparison of one entry is a byte-prefix test. */
  lemma KeyMatchIsPrefix(file: seq<byte>, sig: seq<byte>)
    requires 1 <= |sig| <= HexViewBytes
    ensures KeyMatches(file, Spaced(sig)) <==> StartsWith(file, sig)
  {
    var magic := Spaced(sig);
    var parts := HexParts(file);
    UpperHex2Digits();
    NoSpaceInPairs(Pairs(sig));
    SplitJoin(Pairs(sig), ' ');
    var m := Min(|sig|, |parts|);
    assert parts[..m] == Pairs(file[..m]);
    if StartsWith(file, sig) {
      assert file[..m] == sig;
    }
    if Join(parts[..m], ' ') == magic {
      SpacedInjective(file[..m], sig);
    }
  }

  /** Spaced spellings of byte strings are equal only for equal byte strings. */
  lemma SpacedInjective(a: seq<byte>, b: seq<byte>)
    requires |b| >= 1 && Spaced(a) == Spaced(b)
    ensures a == b
  {
    UpperHex2Digits();
    NoSpaceInPairs(Pairs(a));
    NoSpaceInPairs(Pairs(b));
    SplitJoin(Pairs(b), ' ');
    if |a| > 0 {
      SplitJoin(Pairs(a), ' ');
      assert Pairs(a) == Pairs(b);
      forall i | 0 <= i < |a|
        ensures a[i] == b[i]
      {
        UpperHex2Value(a[i]);
        UpperHex2Value(b[i]);
        assert Pairs(a)[i] == Pairs(b)[i];
      }
    }
  }

  // ---------------------------------------------------------------- strings

  /** Bytes read for strings: the first mebibyte. */
  const StringsWindow: nat := 1024 * 1024

  /** At most this many strings are kept. */
  const MaxStrings: nat := 1000

  /** The class `[ -~]`: space to tilde. */
  predicate Printable(c: char)
  {
    ' ' <= c <= '~'
  }

  predicate AllPrintable(s: string)
  {
    forall i :: 0 <= i < |s| ==> Printable(s[i])
  }

  /** How many printable characters open `s`. */
  function PrintableRun(s: string): (k: nat)
    ensures k <= |s| && AllPrintable(s[..k]) && (k < |s| ==> !Printable(s[k]))
  {
    if |s| == 0 || !Printable(s[0]) then 0
    else
      var k := 1 + PrintableRun(s[1..]);
      assert s[..k] == [s[0]] + s[1..][..k - 1];
      k
  }

  /** `s.match(/[ -~]{4,}/g)`: at each position the greedy run of printable characters is
      a match when it is at least four long, and the search resumes after it; otherwise
      the search moves on one character. */
  function RegexRuns(s: string): (r: seq<string>)
    ensures forall i :: 0 <= i < |r| ==> |r[i]| >= 4 && AllPrintable(r[i])
    decreases |s|
  {
    if |s| == 0 then []
    else
      var k := PrintableRun(s);
      if k >= 4 then [s[..k]] + RegexRuns(s[k..]) else RegexRuns(s[1..])
  }

  /** The pieces of `s` between non-printable characters. */
  function Pieces(s: string): (ps: seq<string>)
    ensures |ps| >= 1
  {
    if |s| == 0 then [[]]
    else if !Printable(s[0]) then [[]] + Pieces(s[1..])
    else
      var rest := Pieces(s[1..]);
      [[s[0]] + rest[0]] + rest[1..]
  }

  /** The pieces of at least four characters. */
  function Long(ps: seq<string>): (r: seq<string>)
    ensures |r| <= |ps|
  {
    if |ps| == 0 then []
    else (if |ps[0]| >= 4 then [ps[0]] else []) + Long(ps[1..])
  }

  lemma {:induction false} PiecesOfRun(run: string, rest: string)
    requires AllPrintable(run)
    ensures Pieces(run + rest) == [run + Pieces(rest)[0]] + Pieces(rest)[1..]
    decreases |run|
  {
    if |run| > 0 {
      var s := run + rest;
      assert s[1..] == run[1..] + rest;
      PiecesOfRun(run[1..], rest);
      assert [run[0]] + (run[1..] + Pieces(rest)[0]) == run + Pieces(rest)[0];
    } else {
      assert run + rest == rest;
      assert run + Pieces(rest)[0] == Pieces(rest)[0];
      assert [Pieces(rest)[0]] + Pieces(rest)[1..] == Pieces(rest);
    }
  }

  /** The regular-expression scan finds exactly the maximal printable runs of at least
      four characters, in order. */
  lemma {:induction false} RegexRunsAreLongPieces(s: string)
    ensures RegexRuns(s) == Long(Pieces(s))
    decreases |s|
  {
    if |s| > 0 {
      var k := PrintableRun(s);
      if k == 0 {
        RegexRunsAreLongPieces(s[1..]);
      } else {
        var run, rest := s[..k], s[k..];
        assert run + rest == s;
        PiecesOfRun(run, rest);
        var tail := Pieces(rest);
        assert tail[0] == [] by {
          if |rest| > 0 {
            assert rest[0] == s[k];
          }
        }
        assert run + tail[0] == run;
        assert Pieces(s) == [run] + tail[1..];
        var after := if |rest| == 0 then [] else tail[1..];
        if |rest| > 0 {
          RegexRunsAreLongPieces(rest[1..]);
          assert RegexRuns(rest) == RegexRuns(rest[1..]);
        }
        assert RegexRuns(rest) == Long(tail[1..]);
        if k >= 4 {
          assert RegexRuns(s) == [run] + RegexRuns(rest);
        } else {
          ShortRunSkipped(s, k);
        }
      }
    }
  }

  /** A run of fewer than four characters yields nothing: the scan steps through it. */
  lemma {:induction false} ShortRunSkipped(s: string, k: nat)
    requires 1 <= k < 4 && k == PrintableRun(s)
    ensures RegexRuns(s) == RegexRuns(s[k..])
    decreases k
  {
    assert RegexRuns(s) == RegexRuns(s[1..]);
    var t := s[1..];
    assert t[..k - 1] == s[1..k];
    if k > 1 {
      RunShift(s, k);
      ShortRunSkipped(t, k - 1);
      assert t[k - 1..] == s[k..];
    } else {
      assert |t| == 0 || !Printable(t[0]);
      if |t| > 0 {
        assert RegexRuns(t) == RegexRuns(t[1..]);
      }
      assert t == s[k..];
    }
  }

  lemma RunShift(s: string, k: nat)
    requires 2 <= k && k == PrintableRun(s)
    ensures PrintableRun(s[1..]) == k - 1
  {
  }

  /** `Array.from(uint8.slice(0, 1024 * 1024)).map(String.fromCharCode).join("")
      .match(/[ -~]{4,}/g).slice(0, 1000)`. */
  function ExtractStrings(file: seq<byte>): (r: seq<string>)
    ensures |r| <= MaxStrings
    ensures forall i :: 0 <= i < |r| ==> |r[i]| >= 4 && AllPrintable(r[i])
  {
    var runs := RegexRuns(Latin1(file[..Min(|file|, StringsWindow)]));
    if |runs| <= MaxStrings then runs else runs[..MaxStrings]
  }

  /** The extracted strings are the first thousand maximal printable runs of four or more
      characters in the file's first mebibyte. */
  lemma ExtractStringsRuns(file: seq<byte>)
    ensures var runs := Long(Pieces(Latin1(file[..Min(|file|, StringsWindow)])));
            ExtractStrings(file) == runs[..Min(|runs|, MaxStrings)]
  {
    RegexRunsAreLongPieces(Latin1(file[..Min(|file|, StringsWindow)]));
  }
}
