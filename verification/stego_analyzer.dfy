/** The bit-plane view of the steganography analyzer (`components/stego-analyzer.tsx`):
    the RGBA pixel buffer is replaced by a black-and-white picture of one bit of one
    channel. The canvas work (drawing, reading and writing image data) is outside the
    model; the buffer is a byte sequence, four bytes per pixel. */
module StegoAnalyzer {
  import opened Results
  import opened Digits
  import opened JsText
  import opened Bytes

  // ---------------------------------------------------------------- the selection

  /** The channel name's byte offset within a pixel; other names read the value 0. */
  function ChannelOffset(name: string): (r: Option<nat>)
    ensures r.Some? ==> r.value < 4
    ensures r == Some(0) <==> name == "red"
    ensures r == Some(3) <==> name == "alpha"
  {
    if name == "red" then Some(0)
    else if name == "green" then Some(1)
    else if name == "blue" then Some(2)
    else if name == "alpha" then Some(3)
    else None
  }

  /** The shift count `>>` uses: `ToUint32(bitIndex) & 31`, NaN counting as 0. */
  function ShiftCount(bitIndex: Option<int>): (k: nat)
    ensures k < 32
    ensures bitIndex.Some? && 0 <= bitIndex.value < 32 ==> k == bitIndex.value
    ensures bitIndex.None? ==> k == 0
  {
    match bitIndex
    case None => 0
    case Some(v) => v % 32
  }

  /** `(v >> k) & 1` for a non-negative v. */
  function BitOf(v: nat, k: nat): (b: bit)
  {
    (v / Pow(2, k)) % 2
  }

  // ---------------------------------------------------------------- the transform

  /** The value the selected channel has at the pixel starting at `base`: `data[i + off]`,
      with `undefined` (past the end, or no channel) reading as 0. */
  function ChannelValue(data: seq<byte>, base: nat, off: Option<nat>): (v: byte)
    ensures off.Some? && base + off.value < |data| ==> v == data[base + off.value]
    ensures off.None? ==> v == 0
  {
    if off.Some? && base + off.value < |data| then data[base + off.value] else 0
  }

  /** The grey level of the pixel starting at `base`: white for a set bit, black otherwise. */
  function PixelValue(data: seq<byte>, base: nat, off: Option<nat>, k: nat): (p: byte)
    ensures p == 0 || p == 255
    ensures p == 255 <==> BitOf(ChannelValue(data, base, off), k) == 1
  {
    if BitOf(ChannelValue(data, base, off), k) == 1 then 255 else 0
  }

  /** The pixel loop: R, G and B of each pixel set to its grey level and alpha to 255. A
      last, incomplete pixel keeps its length, since writes past the end are dropped. */
  function PlaneView(data: seq<byte>, off: Option<nat>, k: nat): (r: seq<byte>)
    ensures |r| == |data|
    ensures forall j :: 0 <= j < |r| ==> r[j] == 0 || r[j] == 255
    ensures forall j :: 0 <= j < |r| && j % 4 == 3 ==> r[j] == 255
    ensures forall j :: 0 <= j < |r| && j % 4 < 3 ==>
              (r[j] == 255 <==> BitOf(ChannelValue(data, j - j % 4, off), k) == 1)
  {
    seq(|data|, j requires 0 <= j < |data| => ViewAt(data, j, off, k))
  }

  /** Byte `j` of the view: alpha 255, and the grey level of its pixel otherwise. */
  function ViewAt(data: seq<byte>, j: nat, off: Option<nat>, k: nat): (v: byte)
    ensures v == 0 || v == 255
    ensures j % 4 == 3 ==> v == 255
    ensures j % 4 < 3 ==> (v == 255 <==> BitOf(ChannelValue(data, j - j % 4, off), k) == 1)
  {
    if j % 4 == 3 then 255 else PixelValue(data, j - j % 4, off, k)
  }

  /** The effect for a `bitPlane` selection such as "red-0": "original" leaves the pixels
      alone; anything else is split at "-" into a channel name and a bit index. */
  function BitPlane(data: seq<byte>, bitPlane: string): (r: seq<byte>)
    ensures bitPlane == "original" ==> r == data
    ensures |r| == |data|
  {
    if bitPlane == "original" then data
    else
      var parts := Split(bitPlane, '-');
      var bitIndex := if |parts| >= 2 then ParseInt(Utf16(parts[1]), 0) else None;
      PlaneView(data, ChannelOffset(parts[0]), ShiftCount(bitIndex))
  }

  /** The selector's entries ("red-0", "blue-7", ...) name a channel and a single-digit bit. */
  lemma SelectorEntry(data: seq<byte>, name: string, k: nat)
    requires k < 10 && '-' !in name && name != "original"
    ensures BitPlane(data, name + "-" + [DigitChar(k)]) == PlaneView(data, ChannelOffset(name), k)
  {
    var s := name + "-" + [DigitChar(k)];
    assert s != "original" by {
      assert s[|s| - 2] == '-';
      assert "original"[|"original"| - 2] == 'a';
    }
    SplitCons(name, '-', [DigitChar(k)]);
    SplitFree([DigitChar(k)], '-');
    ParseIntDigits([DigitChar(k)], 10);
    assert FromDigits(DigitValues([DigitChar(k)]), 10) == FromDigits([k], 10) == k by {
      assert DigitValues([DigitChar(k)]) == [k];
      assert [k][..0] == [];
    }
  }

  // ---------------------------------------------------------------- bits of grey levels

  lemma PowAtLeast(k: nat)
    requires k >= 8
    ensures Pow(2, k) >= 256
  {
    if k > 8 {
      PowAtLeast(k - 1);
    }
  }

  /** A byte has no bits at 8 and above. */
  lemma HighBitClear(v: byte, k: nat)
    requires k >= 8
    ensures BitOf(v, k) == 0
  {
    PowAtLeast(k);
  }

  /** The grey levels: 255 has exactly bits 0 to 7 set and 0 none. */
  lemma GreyBits(k: nat)
    ensures BitOf(0, k) == 0
    ensures BitOf(255, k) == if k < 8 then 1 else 0
  {
    if k >= 8 {
      HighBitClear(255, k);
    } else if k == 0 {
      assert Pow(2, 0) == 1;
    } else if k == 1 {
      assert Pow(2, 1) == 2;
    } else if k == 2 {
      assert Pow(2, 2) == 4;
    } else if k == 3 {
      assert Pow(2, 3) == 8;
    } else if k == 4 {
      assert Pow(2, 4) == 16;
    } else if k == 5 {
      assert Pow(2, 5) == 32;
    } else if k == 6 {
      assert Pow(2, 6) == 64;
    } else {
      assert Pow(2, 7) == 128;
    }
  }

  // ---------------------------------------------------------------- properties

  /** Viewing the same plane of red, green or blue (or of no channel) twice is viewing it
      once: the first pass leaves grey levels whose bit k is already the pixel's bit. */
  lemma PlaneIdempotent(data: seq<byte>, off: Option<nat>, k: nat)
    requires off.None? || off.value < 3
    ensures PlaneView(PlaneView(data, off, k), off, k) == PlaneView(data, off, k)
  {
    var once := PlaneView(data, off, k);
    forall j | 0 <= j < |data|
      ensures PlaneView(once, off, k)[j] == once[j]
    {
      StableAt(data, off, k, j);
    }
  }

  lemma StableAt(data: seq<byte>, off: Option<nat>, k: nat, j: nat)
    requires (off.None? || off.value < 3) && j < |data|
    ensures PlaneView(PlaneView(data, off, k), off, k)[j] == PlaneView(data, off, k)[j]
  {
    if j % 4 < 3 {
      PixelStable(data, j - j % 4, off, k);
    }
  }

  /** A pixel's grey level is the same read from the viewed buffer as from the original. */
  lemma PixelStable(data: seq<byte>, base: nat, off: Option<nat>, k: nat)
    requires (off.None? || off.value < 3) && base % 4 == 0
    ensures PixelValue(PlaneView(data, off, k), base, off, k) == PixelValue(data, base, off, k)
  {
    var once := PlaneView(data, off, k);
    if off.Some? && base + off.value < |data| {
      var c := base + off.value;
      QuadOffset(base, off.value);
      var v := ChannelValue(data, base, off);
      assert ChannelValue(once, base, off) == PixelValue(data, base, off, k);
      GreyBits(k);
      if k >= 8 {
        HighBitClear(v, k);
      }
    }
  }

  /** The alpha planes are not idempotent: the first pass makes alpha 255, so a second
      pass of bit 0 turns a black picture white. */
  lemma AlphaPlaneNotIdempotent()
    ensures PlaneView([0, 0, 0, 0], Some(3), 0) == [0, 0, 0, 255]
    ensures PlaneView([0, 0, 0, 255], Some(3), 0) == [255, 255, 255, 255]
  {
    GreyBits(0);
    forall j | 0 <= j < 4
      ensures PlaneView([0, 0, 0, 0], Some(3), 0)[j] == [0, 0, 0, 255][j]
      ensures PlaneView([0, 0, 0, 255], Some(3), 0)[j] == 255
    {
      QuadOffset(0, j);
    }
  }

  /** An assignment to a typed-array element: a write past the end is dropped. */
  function Store(r: seq<byte>, j: nat, v: byte): (r': seq<byte>)
    ensures |r'| == |r|
    ensures forall t :: 0 <= t < |r| ==> r'[t] == if t == j then v else r[t]
  {
    if j < |r| then r[j := v] else r
  }

  /** The buffer after the pixel loop has handled the bytes below `i`. */
  predicate LoopState(data: seq<byte>, off: Option<nat>, k: nat, i: nat, r: seq<byte>)
  {
    i % 4 == 0 && |r| == |data|
    && (forall j :: 0 <= j < |r| && j < i ==> r[j] == PlaneView(data, off, k)[j])
    && (forall j :: i <= j < |r| ==> r[j] == data[j])
  }

  /** The four writes of one pixel. */
  function StorePixel(r: seq<byte>, i: nat, p: byte): (r': seq<byte>)
    ensures |r'| == |r|
    ensures forall t :: 0 <= t < |r| ==> r'[t] == if i <= t < i + 3 then p else if t == i + 3 then 255 else r[t]
  {
    var r1 := Store(r, i, p);
    var r2 := Store(r1, i + 1, p);
    var r3 := Store(r2, i + 2, p);
    Store(r3, i + 3, 255)
  }

  /** One turn of the pixel loop: the pixel's three colour bytes get its grey level and
      its alpha byte 255. */
  lemma PixelStep(data: seq<byte>, off: Option<nat>, k: nat, i: nat, r: seq<byte>)
    requires i < |data| && LoopState(data, off, k, i, r)
    ensures PixelValue(r, i, off, k) == PixelValue(data, i, off, k)
    ensures LoopState(data, off, k, i + 4, StorePixel(r, i, PixelValue(data, i, off, k)))
  {
    var p := PixelValue(data, i, off, k);
    var r' := StorePixel(r, i, p);
    var v := PlaneView(data, off, k);
    assert ChannelValue(r, i, off) == ChannelValue(data, i, off);
    forall j | 0 <= j < |r'| && j < i + 4
      ensures r'[j] == v[j]
    {
      if j >= i {
        QuadOffset(i, j - i);
        assert v[j] == ViewAt(data, j, off, k);
      }
    }
  }

  lemma QuadOffset(i: nat, d: nat)
    requires i % 4 == 0 && d < 4
    ensures (i + d) % 4 == d && (i + d) - (i + d) % 4 == i
  {
  }

  /** The pixel loop as written: four bytes at a time, reading the channel before writing. */
  method PlaneLoop(data: seq<byte>, off: Option<nat>, k: nat) returns (r: seq<byte>)
    ensures r == PlaneView(data, off, k)
  {
    r := data;
    var i := 0;
    while i < |data|
      invariant LoopState(data, off, k, i, r)
      decreases |data| - i
    {
      PixelStep(data, off, k, i, r);
      var p := PixelValue(r, i, off, k);
      r := StorePixel(r, i, p);
      i := i + 4;
    }
  }
}
