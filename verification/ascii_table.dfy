/** The ASCII reference table (`components/ascii-table.tsx`): one row per code 0–127 with
    its decimal value, two upper-case hex digits, eight binary digits and a label. */
module AsciiTable {
  import opened Digits
  import opened JsText
  import opened Bytes
  import opened RadixText

  datatype Row = Row(dec: nat, hex: string, bin: string, desc: string)

  /** The label column: mnemonics for the control codes, "SPC" for the space, and the
      character itself otherwise. */
  function Label(i: nat): (s: string)
    requires i < 128
  {
    if i < 32 || i == 127 then
      if i == 0 then "NUL"
      else if i == 9 then "TAB"
      else if i == 10 then "LF"
      else if i == 13 then "CR"
      else if i == 27 then "ESC"
      else if i == 127 then "DEL"
      else "CTL"
    else if i == 32 then "SPC"
    else [i as char]
  }

  /** `i.toString(16).toUpperCase().padStart(2, "0")`. */
  function HexCell(i: nat): string
  {
    PadStart(Upper(RadixString(i, 16)), 2, '0')
  }

  /** The table loop: entry i describes code i. */
  function Table(): (t: seq<Row>)
    ensures |t| == 128
    ensures forall i :: 0 <= i < 128 ==> t[i].dec == i
  {
    seq(128, i requires 0 <= i < 128 => Row(i, HexCell(i), PaddedRadix(i, 2, 8), Label(i)))
  }

  /** Padding with "0" commutes with upper-casing, so the hex cell is the upper-case pair. */
  lemma HexCellPair(b: byte)
    ensures HexCell(b) == UpperHex2(b)
  {
    var r := RadixString(b, 16);
    Hex2Padded(b);
    UpperHex2Upper(b);
    assert PadStart(Upper(r), 2, '0') == Upper(PadStart(r, 2, '0')) by {
      UpperPadStart(r, 2);
    }
  }

  lemma UpperPadStart(r: string, width: nat)
    ensures PadStart(Upper(r), width, '0') == Upper(PadStart(r, width, '0'))
  {
    var a, b := PadStart(Upper(r), width, '0'), Upper(PadStart(r, width, '0'));
    assert |a| == |b|;
    forall i | 0 <= i < |a|
      ensures a[i] == b[i]
    {
      var k := |a| - |r|;
      if i >= k {
        assert a[i] == a[k..][i - k] == Upper(r)[i - k];
        assert PadStart(r, width, '0')[i] == PadStart(r, width, '0')[k..][i - k] == r[i - k];
      }
    }
  }

  /** The hex column: two upper-case hex digits that read back as the code. */
  lemma TableHex(i: nat)
    requires i < 128
    ensures var h := Table()[i].hex;
            |h| == 2 && AllDigits(h, 16) && !IsAsciiLower(h[0]) && !IsAsciiLower(h[1])
            && 16 * DigitValue(h[0] as int) + DigitValue(h[1] as int) == i
  {
    HexCellPair(i);
    UpperHex2Value(i);
  }

  /** The binary column: eight binary digits that read back as the code. */
  lemma TableBin(i: nat)
    requires i < 128
    ensures var s := Table()[i].bin;
            |s| == 8 && AllDigits(s, 2) && FromDigits(DigitValues(s), 2) == i
  {
    Bin8Padded(i);
    Bin8Value(i);
  }

  /** The label column: a code is labelled by its own single character exactly when it is
      printable and not the space; the others get their mnemonics, case by case. */
  lemma TableLabels(i: nat)
    requires i < 128
    ensures var l := Table()[i].desc;
            (|l| == 1 <==> 33 <= i <= 126)
            && (i == 0 ==> l == "NUL") && (i == 9 ==> l == "TAB") && (i == 10 ==> l == "LF")
            && (i == 13 ==> l == "CR") && (i == 27 ==> l == "ESC") && (i == 127 ==> l == "DEL")
            && (i < 32 && i !in {0, 9, 10, 13, 27} ==> l == "CTL")
            && (i == 32 ==> l == "SPC")
            && (33 <= i <= 126 ==> |l| == 1 && l[0] as int == i)
  {
  }

  /** Every label except "CTL" names a single code: a printable character is one character
      long and every mnemonic at least two, and mnemonics differ. */
  lemma LabelNamesCode(i: nat, j: nat)
    requires i < 128 && j < 128 && i != j && Label(i) != "CTL"
    ensures Label(i) != Label(j)
  {
    if 33 <= i <= 126 && 33 <= j <= 126 {
      assert Label(i)[0] != Label(j)[0];
    }
  }
}
