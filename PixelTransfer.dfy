/**
  The pixel transfer of the TCL client: `write_pixels` packs the grey image,
  four bytes at a time, into 32-character binary words (the last group padded
  with zero bytes), and READ_IMAGE unpacks each 32-character reply of the
  accelerator into four bytes until it holds the whole downscaled image.

  The socket is not modelled: the words `write_pixels` sends are the list it
  returns, and the replies READ_IMAGE reads are a function from the number of
  the exchange (0 for the first) to the reply string.
*/
module PixelTransfer {
  import opened BitStrings
  // `Byte`, one grey sample (`np.uint8`), is the sample of the reference model
  import opened Bilinear

  // ---------------------------------------------------------------------
  // Packing
  // ---------------------------------------------------------------------

  /** `''.join(f"{byte:08b}" for byte in chunk)`: eight binary digits per
      byte, first byte first. */
  function Pack(chunk: seq<Byte>): string
  {
    if chunk == [] then [] else Pack(chunk[..|chunk| - 1]) + Format(chunk[|chunk| - 1], 8)
  }

  /** The four bytes of the group that starts at index i: the image's bytes
      where there are any, zero past its end. */
  function GroupAt(arr: seq<Byte>, i: int): (g: seq<Byte>)
    ensures |g| == 4
  {
    seq(4, j => if 0 <= i + j < |arr| then arr[i + j] else 0)
  }

  /** Number of four-byte groups of n bytes: n/4 rounded up. */
  function Groups(n: nat): nat
  {
    (n + 3) / 4
  }

  /** The words `write_pixels` builds from the flattened image: one per
      group of four bytes, in order. */
  function Packed(arr: seq<Byte>): seq<string>
  {
    seq(Groups(|arr|), k => Pack(GroupAt(arr, 4 * k)))
  }

  /** `write_pixels` without its sends: None when no image is loaded;
      otherwise the list of words, built by walking the image four bytes at
      a time and zero-filling a padded four-byte array for a short group. */
  method WritePixels(image: Option<seq<Byte>>) returns (r: Option<seq<string>>)
    ensures image.None? ==> r.None?
    ensures image.Some? ==> r == Some(Packed(image.value))
  {
    if image.None? {
      return None;
    }
    var arr := image.value;
    var pixelsBin: seq<string> := [];
    var i := 0;
    while i < |arr|
      invariant 0 <= i < |arr| + 4 && i == 4 * |pixelsBin|
      invariant forall k :: 0 <= k < |pixelsBin| ==> pixelsBin[k] == Pack(GroupAt(arr, 4 * k))
      decreases |arr| - i
    {
      var chunk := arr[i..if i + 4 <= |arr| then i + 4 else |arr|];
      if |chunk| < 4 {
        var padded := new Byte[4](_ => 0);
        for j := 0 to |chunk|
          invariant forall t :: 0 <= t < j ==> padded[t] == chunk[t]
          invariant forall t :: j <= t < 4 ==> padded[t] == 0
        {
          padded[j] := chunk[j];
        }
        chunk := padded[..];
      }
      assert chunk == GroupAt(arr, i);
      var chunkBin := Pack(chunk);
      pixelsBin := pixelsBin + [chunkBin];
      i := i + 4;
    }
    PackedIs(arr, pixelsBin);
    return Some(pixelsBin);
  }

  /** A list holding the packed group k at every index k < n/4 rounded up
      is the list of packed words. */
  lemma PackedIs(arr: seq<Byte>, words: seq<string>)
    requires |words| == Groups(|arr|)
    requires forall k :: 0 <= k < |words| ==> words[k] == Pack(GroupAt(arr, 4 * k))
    ensures words == Packed(arr)
  {
  }


  // ---------------------------------------------------------------------
  // Unpacking
  // ---------------------------------------------------------------------

  /** Python's slice `s[a:b]` for 0 <= a <= b: cut at the end of s. */
  function Slice(s: string, a: nat, b: nat): (r: string)
    requires a <= b
    ensures |r| <= b - a
  {
    if b <= |s| then s[a..b] else if a <= |s| then s[a..] else []
  }

  /** `int(s, 2)` on one eight-character slice of a reply: a byte, or None
      when the slice is empty or holds anything but binary digits. */
  function ParseByte(s: string): (r: Option<Byte>)
    requires |s| <= 8
  {
    var v := ParseBin(s);
    if v.None? then None
    else
      assert v.value < 256 by {
        Pow2Mono(|s|, 8);
      }
      Some(v.value)
  }

  /** The first k bytes of a reply: `int(response[8j:8j+8], 2)` for
      j = 0..k-1, None when one of those slices does not parse (the `int`
      raises). */
  function UnpackBytes(response: string, k: nat): (r: Option<seq<Byte>>)
    requires k <= 4
    ensures r.Some? ==> |r.value| == k
  {
    if k == 0 then Some([])
    else
      var j := k - 1;
      var before, last := UnpackBytes(response, j), ParseByte(Slice(response, 8 * j, 8 * j + 8));
      if before.Some? && last.Some? then Some(before.value + [last.value]) else None
  }

  /** One reply of READ_IMAGE: its four bytes `pixel0..pixel3`. */
  function UnpackWord(response: string): (r: Option<seq<Byte>>)
    ensures r.Some? ==> |r.value| == 4
  {
    UnpackBytes(response, 4)
  }

  /** A reply unpacks exactly when it reaches into its fourth byte and its
      first 32 characters (all of it, if shorter) are binary digits;
      characters after them are ignored.  A reply of 25 to 31 characters
      still unpacks: its last slice is shorter than eight digits. */
  lemma UnpackWordDefined(response: string)
    ensures UnpackWord(response).Some? <==> |response| > 24 && IsBits(Slice(response, 0, 32))
  {
    UnpackBytesDefined(response, 4);
  }

  /** The first k slices parse exactly when the reply reaches into slice k
      and its first 8k characters are binary digits. */
  lemma {:induction false} UnpackBytesDefined(response: string, k: nat)
    requires 1 <= k <= 4
    ensures UnpackBytes(response, k).Some? <==> |response| > 8 * (k - 1) && IsBits(Slice(response, 0, 8 * k))
  {
    var j := k - 1;
    var last := Slice(response, 8 * j, 8 * j + 8);
    if k > 1 {
      UnpackBytesDefined(response, k - 1);
    }
    if |response| > 8 * (k - 1) {
      assert Slice(response, 0, 8 * k) == Slice(response, 0, 8 * j) + last;
      BitsConcat(Slice(response, 0, 8 * j), last);
    }
  }

  lemma {:induction false} Pow2Mono(a: nat, b: nat)
    requires a <= b
    ensures Pow2(a) <= Pow2(b)
    decreases b
  {
    if a < b {
      Pow2Mono(a, b - 1);
    }
  }

  /** The bytes of the first n replies, in order; None as soon as one of
      them does not unpack. */
  function Received(reply: nat -> string, n: nat): (r: Option<seq<Byte>>)
    ensures r.Some? ==> |r.value| == 4 * n
  {
    if n == 0 then Some([])
    else
      var before, four := Received(reply, n - 1), UnpackWord(reply(n - 1));
      if before.Some? && four.Some? then Some(before.value + four.value) else None
  }

  /** The number of exchanges READ_IMAGE makes for an image of numPixels
      pixels: the first reply is always read, then more until at least
      numPixels bytes have arrived. */
  function Exchanges(numPixels: nat): (n: nat)
    ensures n >= 1 && 4 * n >= numPixels && (n == 1 || 4 * (n - 1) < numPixels)
  {
    if numPixels <= 4 then 1 else Groups(numPixels)
  }

  /** The exchange count is the only n >= 1 with 4n >= numPixels whose
      previous exchange had not yet brought numPixels bytes. */
  lemma ExchangesUnique(numPixels: nat, n: nat)
    requires n >= 1 && 4 * n >= numPixels && (n == 1 || 4 * (n - 1) < numPixels)
    ensures n == Exchanges(numPixels)
  {
  }

  /** While fewer than numPixels bytes have arrived, READ_IMAGE asks for
      more. */
  lemma ExchangesAtLeast(numPixels: nat, n: nat)
    requires n >= 1 && (n == 1 || 4 * (n - 1) < numPixels)
    ensures n <= Exchanges(numPixels)
  {
  }

  /** The image READ_IMAGE builds: the bytes of all its exchanges cut to
      numPixels, or None when a reply does not unpack. */
  function ReadImageResult(reply: nat -> string, numPixels: nat): (r: Option<seq<Byte>>)
    ensures r.Some? ==> |r.value| == numPixels
  {
    match Received(reply, Exchanges(numPixels))
    case Some(all) => Some(all[..numPixels])
    case None => None
  }

  /** One more reply that unpacks adds its four bytes at the end. */
  lemma ReceivedStep(reply: nat -> string, n: nat)
    requires Received(reply, n).Some? && UnpackWord(reply(n)).Some?
    ensures Received(reply, n + 1) == Some(Received(reply, n).value + UnpackWord(reply(n)).value)
  {
  }

  /** Once a reply fails to unpack, every longer run of replies fails too. */
  lemma {:induction false} ReceivedStaysNone(reply: nat -> string, m: nat, n: nat)
    requires m <= n && Received(reply, m).None?
    ensures Received(reply, n).None?
    decreases n - m
  {
    if m < n {
      ReceivedStaysNone(reply, m, n - 1);
    }
  }

  /** The decoding loop of READ_IMAGE: unpacks the first reply, then asks
      again while fewer than numPixels bytes have arrived (`contador`
      counts them), and cuts the bytes to numPixels. */
  method ReadImage(reply: nat -> string, numPixels: nat) returns (r: Option<seq<Byte>>)
    ensures r == ReadImageResult(reply, numPixels)
    ensures r.Some? ==> |r.value| == numPixels
  {
    var first := UnpackWord(reply(0));
    if first.None? {
      ReplyFails(reply, numPixels, 0);
      return None;
    }
    var imagenGenerada := first.value;
    ReceivedStep(reply, 0);
    assert [] + imagenGenerada == imagenGenerada;
    var contador := 4;
    var sent := 1;
    while contador < numPixels
      invariant sent >= 1 && contador == 4 * sent && (sent == 1 || 4 * (sent - 1) < numPixels)
      invariant Received(reply, sent) == Some(imagenGenerada)
      decreases numPixels - contador
    {
      var pixels := UnpackWord(reply(sent));
      if pixels.None? {
        ReplyFails(reply, numPixels, sent);
        return None;
      }
      ReceivedStep(reply, sent);
      imagenGenerada := imagenGenerada + pixels.value;
      contador := contador + 4;
      sent := sent + 1;
    }
    ReadImageDone(reply, numPixels, sent);
    r := Some(imagenGenerada[..numPixels]);
  }

  /** A reply that READ_IMAGE reads and cannot unpack makes it raise. */
  lemma ReplyFails(reply: nat -> string, numPixels: nat, n: nat)
    requires n == 0 || 4 * n < numPixels
    requires UnpackWord(reply(n)).None?
    ensures ReadImageResult(reply, numPixels).None?
  {
    ExchangesAtLeast(numPixels, n + 1);
    ReceivedStaysNone(reply, n + 1, Exchanges(numPixels));
  }

  /** Once enough bytes have arrived, READ_IMAGE's image is what arrived,
      cut to numPixels. */
  lemma ReadImageDone(reply: nat -> string, numPixels: nat, n: nat)
    requires n >= 1 && 4 * n >= numPixels && (n == 1 || 4 * (n - 1) < numPixels)
    requires Received(reply, n).Some?
    ensures ReadImageResult(reply, numPixels) == Some(Received(reply, n).value[..numPixels])
  {
    ExchangesUnique(numPixels, n);
  }


  // ---------------------------------------------------------------------
  // Properties
  // ---------------------------------------------------------------------

  /** Pack writes eight binary digits per byte, and byte k sits at
      characters 8k..8k+8. */
  lemma {:induction false} PackLayout(chunk: seq<Byte>)
    ensures |Pack(chunk)| == 8 * |chunk| && IsBits(Pack(chunk))
    ensures forall k :: 0 <= k < |chunk| ==> Pack(chunk)[8 * k..8 * k + 8] == Format(chunk[k], 8)
    decreases |chunk|
  {
    if chunk != [] {
      var init, last := chunk[..|chunk| - 1], chunk[|chunk| - 1];
      var front, back := Pack(init), Format(last, 8);
      assert Pack(chunk) == front + back;
      PackLayout(init);
      assert Pow2(8) == 256;
      FormatFits(last, 8);
      BitsConcat(front, back);
      forall k | 0 <= k < |chunk|
        ensures (front + back)[8 * k..8 * k + 8] == Format(chunk[k], 8)
      {
        if k < |init| {
          assert chunk[k] == init[k];
          SliceOfFront(front, back, 8 * k, 8 * k + 8);
        } else {
          assert (front + back)[8 * k..8 * k + 8] == back;
        }
      }
    }
  }

  lemma SliceOfFront(front: string, back: string, a: nat, b: nat)
    requires a <= b <= |front|
    ensures (front + back)[a..b] == front[a..b]
  {
  }


  /** The words `write_pixels` builds: n/4 of them rounded up, each 32
      binary digits; every group but the last holds four image bytes, and
      only the last is padded, with zero bytes. */
  lemma PackedShape(arr: seq<Byte>)
    ensures |Packed(arr)| == Groups(|arr|) && 4 * |Packed(arr)| - 3 <= |arr| <= 4 * |Packed(arr)|
    ensures forall k :: 0 <= k < |Packed(arr)| ==> |Packed(arr)[k]| == 32 && IsBits(Packed(arr)[k])
    ensures forall k :: 0 <= k < |Packed(arr)| - 1 ==> GroupAt(arr, 4 * k) == arr[4 * k..4 * k + 4]
    ensures arr != [] ==> var k := |Packed(arr)| - 1;
      GroupAt(arr, 4 * k) == arr[4 * k..] + Zeros(4 * |Packed(arr)| - |arr|)
  {
    forall k | 0 <= k < |Packed(arr)|
      ensures |Packed(arr)[k]| == 32 && IsBits(Packed(arr)[k])
    {
      PackLayout(GroupAt(arr, 4 * k));
    }
    if arr != [] {
      var k := |Packed(arr)| - 1;
      assert GroupAt(arr, 4 * k) == arr[4 * k..] + Zeros(4 * |Packed(arr)| - |arr|);
    }
  }

  /** n zero bytes. */
  function Zeros(n: nat): (z: seq<Byte>)
    ensures |z| == n
  {
    seq(n, _ => 0)
  }

  /** Byte k of a group sits at characters 8k..8k+8 of its word. */
  lemma PackAt(chunk: seq<Byte>, k: nat)
    requires k < |chunk|
    ensures |Pack(chunk)| == 8 * |chunk| && Pack(chunk)[8 * k..8 * k + 8] == Format(chunk[k], 8)
  {
    PackLayout(chunk);
  }

  /** READ_IMAGE's unpacking inverts `write_pixels`' packing: a word
      packed from four bytes unpacks to those four bytes. */
  lemma UnpackPack(chunk: seq<Byte>)
    requires |chunk| == 4
    ensures UnpackWord(Pack(chunk)) == Some(chunk)
  {
    var w := Pack(chunk);
    PackLayout(chunk);
    forall j | 0 <= j < 4
      ensures ParseByte(w[8 * j..8 * j + 8]) == Some(chunk[j])
    {
      ParseFormat(chunk[j], 8);
    }
    UnpackBytesOf(w, chunk, 4);
    assert chunk[..4] == chunk;
  }

  /** The first k slices of a word whose slice j reads as chunk[j] are the
      first k bytes of chunk. */
  lemma {:induction false} UnpackBytesOf(w: string, chunk: seq<Byte>, k: nat)
    requires |chunk| == 4 && |w| == 32 && k <= 4
    requires forall j :: 0 <= j < 4 ==> ParseByte(w[8 * j..8 * j + 8]) == Some(chunk[j])
    ensures UnpackBytes(w, k) == Some(chunk[..k])
  {
    if k > 0 {
      var j := k - 1;
      UnpackBytesOf(w, chunk, j);
      assert ParseByte(w[8 * j..8 * j + 8]) == Some(chunk[j]);
      UnpackBytesSnoc(w, j, chunk[..j], chunk[j]);
      assert chunk[..k] == chunk[..j] + [chunk[j]];
    }
  }

  /** One more slice that parses adds its byte at the end. */
  lemma UnpackBytesSnoc(w: string, j: nat, before: seq<Byte>, b: Byte)
    requires j < 4 && |w| == 32
    requires UnpackBytes(w, j) == Some(before) && ParseByte(w[8 * j..8 * j + 8]) == Some(b)
    ensures UnpackBytes(w, j + 1) == Some(before + [b])
  {
    assert Slice(w, 8 * j, 8 * j + 8) == w[8 * j..8 * j + 8];
  }

  /** The image followed by the zero bytes of the last group's padding. */
  function Padded(arr: seq<Byte>): (p: seq<Byte>)
    ensures |p| == 4 * Groups(|arr|)
  {
    arr + Zeros(4 * Groups(|arr|) - |arr|)
  }

  /** Word k of `write_pixels` is the packing of group k. */
  lemma PackedAt(arr: seq<Byte>, k: nat)
    requires k < Groups(|arr|)
    ensures |Packed(arr)| == Groups(|arr|) && Packed(arr)[k] == Pack(GroupAt(arr, 4 * k))
  {
  }

  /** Group k is bytes 4k..4k+4 of the padded image. */
  lemma GroupInPadded(arr: seq<Byte>, k: nat)
    requires k < Groups(|arr|)
    ensures GroupAt(arr, 4 * k) == Padded(arr)[4 * k..4 * k + 4]
  {
  }

  /** Replies whose first n words unpack to the first n groups of the image
      give the first 4n bytes of the padded image. */
  lemma {:induction false} EchoPrefix(arr: seq<Byte>, reply: nat -> string, n: nat)
    requires n <= Groups(|arr|)
    requires forall j :: 0 <= j < n ==> UnpackWord(reply(j)) == Some(GroupAt(arr, 4 * j))
    ensures Received(reply, n) == Some(Padded(arr)[..4 * n])
    decreases n
  {
    if n > 0 {
      var padded := Padded(arr);
      EchoPrefix(arr, reply, n - 1);
      assert UnpackWord(reply(n - 1)) == Some(GroupAt(arr, 4 * (n - 1)));
      ReceivedStep(reply, n - 1);
      GroupInPadded(arr, n - 1);
      PrefixSplit(padded, 4 * (n - 1), 4 * n);
    }
  }

  lemma PrefixSplit(s: seq<Byte>, a: nat, b: nat)
    requires a <= b <= |s|
    ensures s[..b] == s[..a] + s[a..b]
  {
  }

  /** Reading back what was written: when the accelerator answers READ_IMAGE
      with the words `write_pixels` sent, for an image of at least one pixel,
      the image read back is the image written, padding cut off. */
  lemma EchoRoundTrip(arr: seq<Byte>, reply: nat -> string)
    requires arr != []
    requires forall j :: 0 <= j < |Packed(arr)| ==> reply(j) == Packed(arr)[j]
    ensures ReadImageResult(reply, |arr|) == Some(arr)
  {
    var n := Groups(|arr|);
    assert Exchanges(|arr|) == n;
    forall j | 0 <= j < n
      ensures UnpackWord(reply(j)) == Some(GroupAt(arr, 4 * j))
    {
      PackedAt(arr, j);
      UnpackPack(GroupAt(arr, 4 * j));
    }
    EchoPrefix(arr, reply, n);
    assert Padded(arr)[..4 * n][..|arr|] == arr;
  }
}
