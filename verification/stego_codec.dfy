/** The LSB text steganography codec of components/stego-text-tool.tsx.

    A message (already UTF-8 encoded) is followed by a 0x00 terminator, each byte is
    spelled as eight bits most significant first, and bit k of that stream is stored
    in the least-significant bit of the k-th red/green/blue channel byte of the RGBA
    pixel buffer, skipping alpha. Decoding reads those least-significant bits back,
    at most 800 000 of them, and groups them into bytes up to the first zero byte. */
module StegoCodec {
  import opened Results
  import opened Digits
  import opened Bytes

  /** A decoded raster image: `width * height` RGBA pixels, four bytes each. */
  datatype Image = Image(width: nat, height: nat, data: seq<byte>)

  function PixelCount(img: Image): nat
  {
    img.width * img.height
  }

  predicate Valid(img: Image)
  {
    |img.data| == PixelCount(img) * 4
  }

  /** A valid buffer splits into whole pixels, one per four bytes. */
  lemma ValidPixels(img: Image)
    requires Valid(img)
    ensures |img.data| % 4 == 0 && |img.data| / 4 == PixelCount(img)
  {
    DivMulAdd(PixelCount(img), 0, 4);
  }

  datatype StegoError =
    | MissingImageOrMessage  // "Missing image or message."
    | MessageTooLong         // "Message too long for this image."
    | NoImage                // "Please upload an image."

  /** The decoder's safety bound on scanned bits (`100000 * 8`). */
  const MaxDecodeBits: nat := 100000 * 8

  /** Bytes that fit in the image: one bit per red, green and blue channel. */
  function Capacity(width: nat, height: nat): nat
  {
    (width * height * 3) / 8
  }

  /** Bytes the message occupies: its UTF-8 length plus the terminator. */
  function UsedCapacity(msg: seq<byte>): nat
  {
    |msg| + 1
  }

  /** The capacity is the largest byte count whose bits all fit in the colour channels. */
  lemma CapacityIsLargestFit(width: nat, height: nat)
    ensures 8 * Capacity(width, height) <= 3 * (width * height)
    ensures 3 * (width * height) < 8 * (Capacity(width, height) + 1)
  {
  }

  // ---------------------------------------------------------------- the bitstream

  /** The message bytes, each as eight bits most significant first. */
  function MessageBits(msg: seq<byte>): (bits: seq<bit>)
    ensures |bits| == 8 * |msg|
  {
    if |msg| == 0 then [] else ByteBits(msg[0]) + MessageBits(msg[1..])
  }

  /** Eight zero bits: the 0x00 terminator. */
  const Terminator: seq<bit> := [0, 0, 0, 0, 0, 0, 0, 0]

  /** The stream the encoder writes: message bits, then the terminator. */
  function Bitstream(msg: seq<byte>): (bits: seq<bit>)
    ensures |bits| == 8 * UsedCapacity(msg)
  {
    MessageBits(msg) + Terminator
  }

  // ---------------------------------------------------------------- channel addressing

  /** Buffer index of the k-th colour channel byte: pixel k / 3, channel k % 3. */
  function ChannelIndex(k: nat): nat
  {
    4 * (k / 3) + k % 3
  }

  /** Position in the colour-channel order of a red, green or blue buffer byte. */
  function ChannelOrdinal(i: nat): nat
  {
    3 * (i / 4) + i % 4
  }

  lemma ChannelAddressing(k: nat)
    ensures ChannelIndex(k) % 4 < 3
    ensures ChannelOrdinal(ChannelIndex(k)) == k
  {
    DivMulAdd(k / 3, k % 3, 4);
  }

  lemma OrdinalAddressing(i: nat)
    requires i % 4 < 3
    ensures ChannelIndex(ChannelOrdinal(i)) == i
  {
    DivMulAdd(i / 4, i % 4, 3);
  }

  // ---------------------------------------------------------------- encoding

  /** The pixel buffer after storing `bits` in the colour-channel LSBs. */
  function Embed(data: seq<byte>, bits: seq<bit>): (out: seq<byte>)
    ensures |out| == |data|
  {
    seq(|data|, i requires 0 <= i < |data| =>
      if i % 4 < 3 && ChannelOrdinal(i) < |bits| then SetLsb(data[i], bits[ChannelOrdinal(i)])
      else data[i])
  }

  /** What embedding does to each byte: alpha bytes and colour bytes past the end of the
      stream are unchanged; a written byte keeps its upper seven bits and takes the stream
      bit of its channel position as its LSB. */
  lemma EmbedBytes(data: seq<byte>, bits: seq<bit>)
    ensures forall i :: 0 <= i < |data| && (i % 4 == 3 || ChannelOrdinal(i) >= |bits|) ==>
              Embed(data, bits)[i] == data[i]
    ensures forall i :: 0 <= i < |data| && i % 4 < 3 && ChannelOrdinal(i) < |bits| ==>
              Embed(data, bits)[i] / 2 == data[i] / 2 && Embed(data, bits)[i] % 2 == bits[ChannelOrdinal(i)]
  {
  }

  /** `encodeMessage`: nothing happens without an image and a non-empty message, or when
      the message and its terminator exceed the capacity; otherwise the bitstream is
      embedded and the dimensions are kept. */
  function Encode(img: Option<Image>, msg: seq<byte>): (r: Result<Image, StegoError>)
    requires img.Some? ==> Valid(img.value)
    ensures img.None? || |msg| == 0 ==> r == Err(MissingImageOrMessage)
    ensures img.Some? && |msg| > 0 ==>
              (r == Err(MessageTooLong) <==> UsedCapacity(msg) > Capacity(img.value.width, img.value.height))
    ensures r.Ok? ==> r.value.width == img.value.width && r.value.height == img.value.height
                      && Valid(r.value)
                      && r.value.data == Embed(img.value.data, Bitstream(msg))
  {
    if img.None? || |msg| == 0 then Err(MissingImageOrMessage)
    else if UsedCapacity(msg) > Capacity(img.value.width, img.value.height) then Err(MessageTooLong)
    else Ok(img.value.(data := Embed(img.value.data, Bitstream(msg))))
  }

  /** The pixel loop of `encodeMessage`: walks pixels four bytes at a time and channels
      0..2 within each, writing one stream bit per channel until the stream runs out. */
  method EmbedLoop(data: seq<byte>, bits: seq<bit>) returns (out: seq<byte>)
    requires |data| % 4 == 0
    ensures out == Embed(data, bits)
  {
    out := data;
    var bitIndex := 0;
    var i := 0;
    ghost var p := 0;
    while i < |data|
      invariant i == 4 * p && i <= |data|
      invariant bitIndex == Min(|bits|, 3 * p)
      invariant EmbedState(data, bits, i, out)
    {
      if bitIndex >= |bits| {
        break;
      }
      var j := 0;
      while j < 3
        invariant 0 <= j <= 3
        invariant bitIndex == Min(|bits|, 3 * p + j)
        invariant EmbedState(data, bits, i + j, out)
      {
        if bitIndex >= |bits| {
          break;
        }
        EmbedWrite(data, bits, p, j, out);
        out := out[i + j := SetLsb(out[i + j], bits[bitIndex])];
        bitIndex := bitIndex + 1;
        j := j + 1;
      }
      EmbedRestOfPixel(data, bits, p, j, out);
      i := i + 4;
      p := p + 1;
    }
    EmbedPastStream(data, bits, p, out);
  }

  /** The loop has written the bytes below `n` as `Embed` does and not touched the rest. */
  predicate EmbedState(data: seq<byte>, bits: seq<bit>, n: nat, out: seq<byte>)
  {
    |out| == |data|
    && (forall t :: 0 <= t < n && t < |data| ==> out[t] == Embed(data, bits)[t])
    && (forall t :: n <= t < |data| ==> out[t] == data[t])
  }

  /** Channel `j` of pixel `p` carries stream bit `3 * p + j`. */
  lemma EmbedWrite(data: seq<byte>, bits: seq<bit>, p: nat, j: nat, out: seq<byte>)
    requires j < 3 && 4 * p + j < |data| && 3 * p + j < |bits|
    requires EmbedState(data, bits, 4 * p + j, out)
    ensures EmbedState(data, bits, 4 * p + j + 1, out[4 * p + j := SetLsb(out[4 * p + j], bits[3 * p + j])])
  {
    DivMulAdd(p, j, 4);
    assert Embed(data, bits)[4 * p + j] == SetLsb(data[4 * p + j], bits[3 * p + j]);
  }

  /** The channels of pixel `p` from `j` on are untouched once the stream has run out
      (or from the alpha byte on). */
  lemma EmbedRestOfPixel(data: seq<byte>, bits: seq<bit>, p: nat, j: nat, out: seq<byte>)
    requires j <= 3 && (j == 3 || 3 * p + j >= |bits|)
    requires EmbedState(data, bits, 4 * p + j, out)
    ensures EmbedState(data, bits, 4 * p + 4, out)
  {
    forall t | 4 * p + j <= t < 4 * p + 4 && t < |data|
      ensures Embed(data, bits)[t] == data[t]
    {
      DivMulAdd(p, t - 4 * p, 4);
    }
  }

  /** Every byte from pixel `p` on is untouched when the stream ends before that pixel. */
  lemma EmbedPastStream(data: seq<byte>, bits: seq<bit>, p: nat, out: seq<byte>)
    requires 4 * p >= |data| || 3 * p >= |bits|
    requires EmbedState(data, bits, 4 * p, out)
    ensures out == Embed(data, bits)
  {
    forall t | 4 * p <= t < |data|
      ensures Embed(data, bits)[t] == data[t]
    {
      DivMulAdd(t / 4, t % 4, 4);
      assert t == 4 * (t / 4) + t % 4;
    }
  }

  // ---------------------------------------------------------------- decoding

  /** The least-significant bits of the first `limit` colour channels (fewer when the
      image is smaller), in pixel order. */
  function Lsbs(data: seq<byte>, limit: nat): (bits: seq<bit>)
    requires |data| % 4 == 0
    ensures |bits| == Min(limit, 3 * (|data| / 4))
    ensures forall k :: 0 <= k < |bits| ==> ChannelIndex(k) < |data| && bits[k] == data[ChannelIndex(k)] % 2
  {
    var n := Min(limit, 3 * (|data| / 4));
    seq(n, k requires 0 <= k < n =>
      DivMulAdd(k / 3, k % 3, 4);
      data[ChannelIndex(k)] % 2)
  }

  /** The decoder's grouping: successive eight-bit groups read most significant first,
      stopping at an incomplete group or at the first zero byte, which is dropped. */
  function GroupBytes(bits: seq<bit>): (bytes: seq<byte>)
    ensures 8 * |bytes| <= |bits|
    ensures forall i :: 0 <= i < |bytes| ==> bytes[i] != 0
    decreases |bits|
  {
    if |bits| < 8 then []
    else
      var b := BitsValue(bits[..8]);
      if b == 0 then [] else [b] + GroupBytes(bits[8..])
  }

  /** The message bytes `decodeMessage` recovers from a pixel buffer. */
  function DecodeBytes(data: seq<byte>): seq<byte>
    requires |data| % 4 == 0
  {
    GroupBytes(Lsbs(data, MaxDecodeBits))
  }

  /** `decodeMessage`: an error without an image, otherwise the recovered bytes (possibly
      none); the image itself is not changed. */
  function Decode(img: Option<Image>): (r: Result<seq<byte>, StegoError>)
    requires img.Some? ==> Valid(img.value)
    ensures img.None? <==> r == Err(NoImage)
    ensures r.Ok? ==> 8 * |r.value| <= MaxDecodeBits && 8 * |r.value| <= 3 * PixelCount(img.value)
    ensures r.Ok? ==> forall i :: 0 <= i < |r.value| ==> r.value[i] != 0
  {
    if img.None? then Err(NoImage) else Ok(DecodeBytes(img.value.data))
  }

  /** The two loops of `decodeMessage`: collect channel LSBs up to the bound, then
      group them into bytes. */
  method DecodeLoop(data: seq<byte>) returns (bytes: seq<byte>)
    requires |data| % 4 == 0
    ensures bytes == DecodeBytes(data)
  {
    var bits := CollectLsbs(data, MaxDecodeBits);
    bytes := GroupLoop(bits);
  }

  /** The bit-collecting loop: three channels per pixel, stopping once `limit` bits are
      held or the buffer ends. */
  method CollectLsbs(data: seq<byte>, limit: nat) returns (bits: seq<bit>)
    requires |data| % 4 == 0
    ensures bits == Lsbs(data, limit)
  {
    bits := [];
    var i := 0;
    ghost var p := 0;
    while i < |data|
      invariant i == 4 * p && i <= |data|
      invariant |bits| == Min(limit, 3 * p)
      invariant ChannelBits(data, bits)
    {
      var j := 0;
      while j < 3
        invariant 0 <= j <= 3
        invariant |bits| == Min(limit, 3 * p + j)
        invariant ChannelBits(data, bits)
      {
        if |bits| >= limit {
          break;
        }
        ChannelOfPixel(p, j);
        bits := bits + [data[i + j] % 2];
        j := j + 1;
      }
      if |bits| >= limit {
        break;
      }
      i := i + 4;
      p := p + 1;
    }
    PixelsOf(|data|, p);
    var spec := Lsbs(data, limit);
    assert |bits| == |spec|;
    assert forall k :: 0 <= k < |bits| ==> bits[k] == spec[k];
  }

  /** Bit k is the low bit of the k-th colour channel. */
  predicate ChannelBits(data: seq<byte>, bits: seq<bit>)
  {
    forall k :: 0 <= k < |bits| ==> ChannelIndex(k) < |data| && bits[k] == data[ChannelIndex(k)] % 2
  }

  /** Channel `j` of pixel `p` is the channel of stream position `3 * p + j`. */
  lemma ChannelOfPixel(p: nat, j: nat)
    requires j < 3
    ensures ChannelIndex(3 * p + j) == 4 * p + j
  {
    DivMulAdd(p, j, 3);
  }

  /** A buffer of `n` bytes holds `n / 4` pixels, at least `p` when `4 * p <= n`. */
  lemma PixelsOf(n: nat, p: nat)
    requires n % 4 == 0 && 4 * p <= n
    ensures p <= n / 4
    ensures 4 * p == n ==> n / 4 == p
  {
    DivMulAdd(p, 0, 4);
    DivMulAdd(n / 4, 0, 4);
  }

  /** The byte-building loop: eight bits at a time until an incomplete group or a zero. */
  method GroupLoop(bits: seq<bit>) returns (bytes: seq<byte>)
    ensures bytes == GroupBytes(bits)
  {
    bytes := [];
    var k := 0;
    while k < |bits|
      invariant 0 <= k <= |bits|
      invariant GroupBytes(bits) == bytes + GroupBytes(bits[k..])
      decreases |bits| - k
    {
      var chunk := bits[k..if k + 8 <= |bits| then k + 8 else |bits|];
      if |chunk| < 8 {
        break;
      }
      var v := BitsValue(chunk);
      Assoc(chunk, bits[k + 8..], []);
      assert bits[k..] == chunk + bits[k + 8..];
      GroupCons(chunk, bits[k + 8..]);
      if v == 0 {
        break;
      }
      Assoc(bytes, [v], GroupBytes(bits[k + 8..]));
      bytes := bytes + [v];
      k := k + 8;
    }
    if k < |bits| {
      Unit(bytes);
    }
  }

  // ---------------------------------------------------------------- round trip

  predicate NoZero(msg: seq<byte>)
  {
    forall i :: 0 <= i < |msg| ==> msg[i] != 0
  }

  /** The bytes before the first zero byte of a message. */
  function BeforeZero(msg: seq<byte>): (r: seq<byte>)
    ensures NoZero(r) && |r| <= |msg| && r == msg[..|r|]
    ensures |r| < |msg| ==> msg[|r|] == 0
  {
    if |msg| == 0 || msg[0] == 0 then [] else [msg[0]] + BeforeZero(msg[1..])
  }

  /** Grouping a spelled-out message gives back its bytes up to the first zero byte;
      a zero-free message is recovered whole and grouping continues after it. */
  lemma {:induction false} GroupMessage(msg: seq<byte>, rest: seq<bit>)
    requires NoZero(msg)
    ensures GroupBytes(MessageBits(msg) + rest) == msg + GroupBytes(rest)
    decreases |msg|
  {
    if |msg| == 0 {
      Unit(rest);
      Unit(GroupBytes(rest));
    } else {
      var b := msg[0];
      var tail := MessageBits(msg[1..]) + rest;
      Assoc(ByteBits(b), MessageBits(msg[1..]), rest);
      GroupCons(ByteBits(b), tail);
      ByteBitsRoundTrip(b);
      NoZeroTail(msg);
      GroupMessage(msg[1..], rest);
      Assoc([b], msg[1..], GroupBytes(rest));
      ConsTail(msg);
    }
  }

  /** A message holding a zero byte is recovered only up to that byte. */
  lemma {:induction false} GroupMessageCut(msg: seq<byte>, rest: seq<bit>)
    requires !NoZero(msg)
    ensures GroupBytes(MessageBits(msg) + rest) == BeforeZero(msg)
    decreases |msg|
  {
    var b := msg[0];
    var tail := MessageBits(msg[1..]) + rest;
    Assoc(ByteBits(b), MessageBits(msg[1..]), rest);
    GroupCons(ByteBits(b), tail);
    ByteBitsRoundTrip(b);
    if b != 0 {
      NoZeroTail(msg);
      GroupMessageCut(msg[1..], rest);
    }
  }

  lemma NoZeroTail(msg: seq<byte>)
    requires |msg| > 0
    ensures NoZero(msg) <==> msg[0] != 0 && NoZero(msg[1..])
  {
    if msg[0] != 0 && NoZero(msg[1..]) {
      forall i | 0 <= i < |msg|
        ensures msg[i] != 0
      {
        if i > 0 {
          assert msg[i] == msg[1..][i - 1];
        }
      }
    }
  }

  lemma Assoc<T>(a: seq<T>, b: seq<T>, c: seq<T>)
    ensures (a + b) + c == a + (b + c)
  {
  }

  lemma Unit<T>(a: seq<T>)
    ensures [] + a == a
  {
  }

  /** One full group: a zero byte stops, any other byte is kept and grouping goes on. */
  lemma GroupCons(group: seq<bit>, rest: seq<bit>)
    requires |group| == 8
    ensures GroupBytes(group + rest) ==
              if BitsValue(group) == 0 then [] else [BitsValue(group)] + GroupBytes(rest)
  {
    assert (group + rest)[..8] == group;
    assert (group + rest)[8..] == rest;
  }

  /** The terminator stops the grouping: nothing after it is read. */
  lemma GroupTerminator(rest: seq<bit>)
    ensures GroupBytes(Terminator + rest) == []
  {
    assert (Terminator + rest)[..8] == Terminator;
    ZeroBits(Terminator);
  }

  /** The encoded image's channel LSBs start with the written bitstream. */
  lemma EmbeddedLsbs(data: seq<byte>, bits: seq<bit>, limit: nat)
    requires |data| % 4 == 0 && |bits| <= 3 * (|data| / 4)
    ensures forall k :: 0 <= k < Min(limit, |bits|) ==> Lsbs(Embed(data, bits), limit)[k] == bits[k]
  {
    var e := Embed(data, bits);
    var l := Lsbs(e, limit);
    EmbedBytes(data, bits);
    forall k | 0 <= k < Min(limit, |bits|)
      ensures l[k] == bits[k]
    {
      ChannelAddressing(k);
    }
  }

  /** The decoder recovers what the encoder wrote, cut at the first zero byte and at the
      decoder's bound of 100 000 bytes. */
  lemma EncodeDecode(img: Image, msg: seq<byte>)
    requires Valid(img) && |msg| > 0 && UsedCapacity(msg) <= Capacity(img.width, img.height)
    ensures Encode(Some(img), msg).Ok?
    ensures Decode(Some(Encode(Some(img), msg).value)) ==
              Ok(if |msg| < MaxDecodeBits / 8 then BeforeZero(msg) else BeforeZero(msg[..MaxDecodeBits / 8]))
  {
    EncodeFits(img, msg);
    var out := img.(data := Embed(img.data, Bitstream(msg)));
    EmbedValid(img, Bitstream(msg));
    ValidPixels(img);
    StreamFits(img, msg);
    EmbedThenDecode(img.data, msg);
    assert Decode(Some(out)) == Ok(DecodeBytes(out.data));
  }

  /** A message within capacity is embedded into the image's own buffer. */
  lemma EncodeFits(img: Image, msg: seq<byte>)
    requires Valid(img) && |msg| > 0 && UsedCapacity(msg) <= Capacity(img.width, img.height)
    ensures Encode(Some(img), msg) == Ok(img.(data := Embed(img.data, Bitstream(msg))))
  {
  }

  /** Embedding keeps the buffer the size of the image. */
  lemma EmbedValid(img: Image, bits: seq<bit>)
    requires Valid(img)
    ensures Valid(img.(data := Embed(img.data, bits)))
  {
    var out := img.(data := Embed(img.data, bits));
    assert out.width == img.width && out.height == img.height && |out.data| == |img.data|;
  }

  /** The buffer-level round trip behind `EncodeDecode`. */
  lemma EmbedThenDecode(data: seq<byte>, msg: seq<byte>)
    requires |data| % 4 == 0 && |Bitstream(msg)| <= 3 * (|data| / 4)
    ensures DecodeBytes(Embed(data, Bitstream(msg))) ==
              if |msg| < MaxDecodeBits / 8 then BeforeZero(msg) else BeforeZero(msg[..MaxDecodeBits / 8])
  {
    var bits := Bitstream(msg);
    EmbeddedLsbs(data, bits, MaxDecodeBits);
    var l := Lsbs(Embed(data, bits), MaxDecodeBits);
    if |msg| < MaxDecodeBits / 8 {
      GroupShort(l, msg);
    } else {
      assert |l| == 8 * (MaxDecodeBits / 8);
      GroupLong(l, msg, MaxDecodeBits / 8);
    }
  }

  /** A message accepted by the capacity check has its bitstream fit the colour channels. */
  lemma StreamFits(img: Image, msg: seq<byte>)
    requires Valid(img) && UsedCapacity(msg) <= Capacity(img.width, img.height)
    ensures |Bitstream(msg)| <= 3 * (|img.data| / 4)
  {
    CapacityIsLargestFit(img.width, img.height);
    ValidPixels(img);
  }

  /** Grouping bits that start with a whole bitstream. */
  lemma GroupShort(l: seq<bit>, msg: seq<byte>)
    requires |Bitstream(msg)| <= |l|
    requires forall k :: 0 <= k < |Bitstream(msg)| ==> l[k] == Bitstream(msg)[k]
    ensures GroupBytes(l) == BeforeZero(msg)
  {
    var mb := MessageBits(msg);
    var rest := l[|mb| + 8..];
    assert l[..|mb| + 8] == mb + Terminator;
    SplitAfterPrefix(l, mb, Terminator);
    if NoZero(msg) {
      GroupMessage(msg, Terminator + rest);
      GroupTerminator(rest);
      BeforeZeroFree(msg);
      RightUnit(msg);
    } else {
      GroupMessageCut(msg, Terminator + rest);
    }
  }

  /** Grouping exactly the bits of the first `n` bytes of a longer bitstream. */
  lemma GroupLong(l: seq<bit>, msg: seq<byte>, n: nat)
    requires n <= |msg| && |l| == 8 * n
    requires forall k :: 0 <= k < |l| ==> l[k] == Bitstream(msg)[k]
    ensures GroupBytes(l) == BeforeZero(msg[..n])
  {
    var m := msg[..n];
    var mb := MessageBits(m);
    forall k | 0 <= k < |l|
      ensures l[k] == mb[k]
    {
      MessageBitsPrefix(msg, n, k);
    }
    assert l == mb;
    RightUnit(mb);
    if NoZero(m) {
      GroupMessage(m, []);
      BeforeZeroFree(m);
      RightUnit(m);
    } else {
      GroupMessageCut(m, []);
    }
  }

  lemma SplitAfterPrefix<T>(l: seq<T>, a: seq<T>, b: seq<T>)
    requires |a| + |b| <= |l| && l[..|a| + |b|] == a + b
    ensures l == a + (b + l[|a| + |b|..])
  {
    assert l == l[..|a| + |b|] + l[|a| + |b|..];
  }

  lemma RightUnit<T>(a: seq<T>)
    ensures a + [] == a
  {
  }

  lemma {:induction false} BeforeZeroFree(msg: seq<byte>)
    requires NoZero(msg)
    ensures BeforeZero(msg) == msg
    decreases |msg|
  {
    if |msg| > 0 {
      BeforeZeroFree(msg[1..]);
    }
  }

  /** The bits of a message prefix are a prefix of the message's bits. */
  lemma {:induction false} MessageBitsPrefix(msg: seq<byte>, n: nat, k: nat)
    requires n <= |msg| && k < 8 * n
    ensures MessageBits(msg[..n])[k] == Bitstream(msg)[k]
    decreases n
  {
    if k >= 8 {
      assert msg[..n][1..] == msg[1..][..n - 1];
      MessageBitsPrefix(msg[1..], n - 1, k - 8);
    } else {
      assert msg[..n][0] == msg[0];
    }
  }

  /** The round trip the tool promises: a non-empty, zero-free message of fewer than
      100 000 bytes that fits the image is decoded exactly. */
  lemma RoundTrip(img: Image, msg: seq<byte>)
    requires Valid(img) && |msg| > 0 && NoZero(msg)
    requires UsedCapacity(msg) <= Capacity(img.width, img.height)
    requires UsedCapacity(msg) <= MaxDecodeBits / 8
    ensures Encode(Some(img), msg).Ok?
    ensures Decode(Some(Encode(Some(img), msg).value)) == Ok(msg)
  {
    EncodeDecode(img, msg);
    BeforeZeroFree(msg);
  }

  /** A zero byte inside the message ends it early: the decoder returns what precedes it. */
  lemma ZeroTruncates(img: Image, msg: seq<byte>, z: nat)
    requires Valid(img) && |msg| > 0 && UsedCapacity(msg) <= Capacity(img.width, img.height)
    requires UsedCapacity(msg) <= MaxDecodeBits / 8
    requires z < |msg| && msg[z] == 0 && NoZero(msg[..z])
    ensures Decode(Some(Encode(Some(img), msg).value)) == Ok(msg[..z])
  {
    EncodeDecode(img, msg);
    BeforeZeroAt(msg, z);
  }

  lemma {:induction false} BeforeZeroAt(msg: seq<byte>, z: nat)
    requires z < |msg| && msg[z] == 0 && NoZero(msg[..z])
    ensures BeforeZero(msg) == msg[..z]
    decreases z
  {
    if z > 0 {
      assert msg[1..][..z - 1] == msg[..z][1..];
      BeforeZeroAt(msg[1..], z - 1);
      assert [msg[0]] + msg[1..][..z - 1] == msg[..z];
    }
  }

  /** An image whose first eight channel LSBs are zero decodes to no message. */
  lemma LeadingTerminator(img: Image)
    requires Valid(img) && PixelCount(img) >= 3
    requires forall k :: 0 <= k < 8 ==> img.data[ChannelIndex(k)] % 2 == 0
    ensures Decode(Some(img)) == Ok([])
  {
    var l := Lsbs(img.data, MaxDecodeBits);
    assert l[..8] == Terminator;
    ZeroBits(l[..8]);
  }

  /** The empty message is refused rather than encoded as a bare terminator. */
  lemma EmptyMessageRefused(img: Image)
    requires Valid(img)
    ensures Encode(Some(img), []) == Err(MissingImageOrMessage)
  {
  }

  // ---------------------------------------------------------------- the decoder bound

  /** As written, the encoder accepts any message that fits the image, but the decoder
      stops after 100 000 bytes' worth of bits: a longer zero-free message comes back
      cut short. */
  lemma LongMessageCut(img: Image, msg: seq<byte>)
    requires Valid(img) && NoZero(msg) && UsedCapacity(msg) <= Capacity(img.width, img.height)
    requires |msg| >= MaxDecodeBits / 8
    ensures Encode(Some(img), msg).Ok?
    ensures Decode(Some(Encode(Some(img), msg).value)) == Ok(msg[..MaxDecodeBits / 8])
    ensures |msg| > MaxDecodeBits / 8 ==> Decode(Some(Encode(Some(img), msg).value)) != Ok(msg)
  {
    EncodeDecode(img, msg);
    NoZeroPrefix(msg, MaxDecodeBits / 8);
    BeforeZeroFree(msg[..MaxDecodeBits / 8]);
  }

  lemma NoZeroPrefix(msg: seq<byte>, n: nat)
    requires NoZero(msg) && n <= |msg|
    ensures NoZero(msg[..n])
  {
    forall i | 0 <= i < n
      ensures msg[..n][i] != 0
    {
      assert msg[..n][i] == msg[i];
    }
  }

  /** A concrete instance: a black 1000 x 1000 image holds 375 000 message bytes, yet
      100 001 bytes of "A" come back one byte short. */
  lemma MegapixelCut()
    ensures Capacity(1000, 1000) == 375000
    ensures var img := Image(1000, 1000, seq(4000000, i => 0));
            var msg: seq<byte> := seq(100001, i => 0x41);
            Encode(Some(img), msg).Ok? && Decode(Some(Encode(Some(img), msg).value)) != Ok(msg)
  {
    var img := Image(1000, 1000, seq(4000000, i => 0));
    var msg: seq<byte> := seq(100001, i => 0x41);
    assert NoZero(msg);
    LongMessageCut(img, msg);
  }

  /** The encoder with the check the decoder's bound calls for: the bitstream must also
      fit in the 800 000 bits the decoder reads. */
  function EncodeBounded(img: Option<Image>, msg: seq<byte>): (r: Result<Image, StegoError>)
    requires img.Some? ==> Valid(img.value)
    ensures img.None? || |msg| == 0 ==> r == Err(MissingImageOrMessage)
    ensures img.Some? && |msg| > 0 ==>
              (r == Err(MessageTooLong) <==>
                 UsedCapacity(msg) > Capacity(img.value.width, img.value.height)
                 || UsedCapacity(msg) > MaxDecodeBits / 8)
    ensures r.Ok? ==> r == Encode(img, msg)
  {
    if img.Some? && |msg| > 0 && UsedCapacity(msg) > MaxDecodeBits / 8 then Err(MessageTooLong)
    else Encode(img, msg)
  }

  /** With the bounded encoder every accepted zero-free message survives the round trip,
      and every accepted message is recovered up to its first zero byte. */
  lemma BoundedRoundTrip(img: Image, msg: seq<byte>)
    requires Valid(img) && EncodeBounded(Some(img), msg).Ok?
    ensures Decode(Some(EncodeBounded(Some(img), msg).value)) == Ok(BeforeZero(msg))
    ensures NoZero(msg) ==> Decode(Some(EncodeBounded(Some(img), msg).value)) == Ok(msg)
  {
    EncodeDecode(img, msg);
    if NoZero(msg) {
      BeforeZeroFree(msg);
    }
  }
}
