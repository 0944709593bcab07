/** The layer decomposition (the StegSolve-style "cube"): the three colour
    channels, the 24 bit planes, the inverted image and the grayscale image,
    collected in an ordered dictionary of 29 named layers. */
module Layers {
  import opened Common
  import opened Raster
  import opened OrderedMaps
  import Lsb

  datatype Color = Red | Green | Blue {
    /** The dictionary key get_color_channels uses for the band. */
    function Name(): string
    {
      match this
      case Red => "Red"
      case Green => "Green"
      case Blue => "Blue"
    }

    function Of(p: Pixel): byte
    {
      match this
      case Red => p.r
      case Green => p.g
      case Blue => p.b
    }
  }

  /** The bands in the order img.split() returns them. */
  const Colors: seq<Color> := [Red, Green, Blue]

  /** A layer is a single-band image or an RGB image. */
  datatype Layer = Gray(plane: Plane) | Rgb(image: Image) {
    function Width(): nat { if Gray? then plane.width else image.width }
    function Height(): nat { if Gray? then plane.height else image.height }
  }

  /** One band of an RGB image, as a single-band image. */
  function Channel(img: Image, c: Color): (ch: Plane)
    ensures ch.SameShape(img)
    ensures forall k :: 0 <= k < |img.data| ==> ch.data[k] == c.Of(img.data[k])
  {
    MapRaster(img, (p: Pixel) => c.Of(p))
  }

  /** get_color_channels: the three bands of the image, keyed by their names. */
  function GetColorChannels(img: Image): seq<(string, Plane)>
  {
    [(Red.Name(), Channel(img, Red)), (Green.Name(), Channel(img, Green)), (Blue.Name(), Channel(img, Blue))]
  }

  /** extract_bit_plane: every pixel p becomes ((p >> bit) & 1) * 255; the
      result is black and white, has the channel's shape, and is white exactly
      where bit `bit` of the channel is set. */
  function ExtractBitPlane(ch: Plane, bit: nat): (plane: Plane)
    ensures plane.SameShape(ch)
    ensures forall k :: 0 <= k < |ch.data| ==> plane.data[k] == 0 || plane.data[k] == 255
    ensures forall k :: 0 <= k < |ch.data| ==> (plane.data[k] == 255 <==> Bit(ch.data[k], bit) == 1)
  {
    MapRaster(ch, (p: byte) => (Bit(p, bit) * 255) as byte)
  }

  /** The eight bit planes of a channel determine it: reading the planes' pixels
      at one position as binary digits, bit 7 first, gives the channel's value. */
  lemma BitPlanesReconstruct(ch: Plane, k: nat)
    requires k < |ch.data|
    ensures BitsValue(PlaneDigits(ch, k)) == ch.data[k]
  {
    PlaneDigitsAreBits(ch, k);
    ByteBitsRoundTrip(ch.data[k]);
  }

  /** The pixel at index k of the eight bit planes of ch, bit 7 first, each as 0 or 1. */
  function PlaneDigits(ch: Plane, k: nat): (s: seq<bit>)
    requires k < |ch.data|
    ensures |s| == 8
  {
    seq(8, j requires 0 <= j < 8 => PlaneBit(ExtractBitPlane(ch, 7 - j), k))
  }

  /** A pixel of a bit plane as a binary digit. */
  function PlaneBit(plane: Plane, k: nat): bit
    requires k < |plane.data| && (plane.data[k] == 0 || plane.data[k] == 255)
  {
    plane.data[k] / 255
  }

  lemma PlaneDigitsAreBits(ch: Plane, k: nat)
    requires k < |ch.data|
    ensures PlaneDigits(ch, k) == Bits(ch.data[k], 8)
  {
    var p := ch.data[k];
    var s := PlaneDigits(ch, k);
    var n := 8;
    forall j | 0 <= j < n
      ensures s[j] == Bits(p, n)[j]
    {
      PlaneDigit(ch, 7 - j, k);
      BitsAt(p, n, n - 1 - j);
    }
  }

  lemma PlaneDigit(ch: Plane, bit: nat, k: nat)
    requires k < |ch.data|
    ensures ExtractBitPlane(ch, bit).data[k] / 255 == Bit(ch.data[k], bit)
  {
  }

  /** Bit plane 0 of the red channel shows exactly the bit stream the LSB
      reader consumes: white where the red parity is 1. */
  lemma RedBitZeroIsLsbStream(img: Image, k: nat)
    requires k < |img.data|
    ensures ExtractBitPlane(Channel(img, Red), 0).data[k] == 255 * (Lsb.RedBits(img, |img.data|)[k] as int)
  {
  }

  /** invert_image: every component p of every pixel becomes 255 - p. */
  function InvertImage(img: Image): (inv: Image)
    ensures inv.SameShape(img)
    ensures forall k :: 0 <= k < |img.data| ==>
      inv.data[k].r + img.data[k].r == 255 && inv.data[k].g + img.data[k].g == 255 && inv.data[k].b + img.data[k].b == 255
  {
    MapRaster(img, (p: Pixel) => Pixel(255 - p.r, 255 - p.g, 255 - p.b))
  }

  /** Inverting twice gives the original image back. */
  lemma InvertInvolution(img: Image)
    ensures InvertImage(InvertImage(img)) == img
  {
    var twice := InvertImage(InvertImage(img));
    assert twice.data == img.data;
  }

  /** to_grayscale: PIL's mode-'L' conversion, an opaque per-pixel map. */
  function ToGrayscale(img: Image, luma: Pixel -> byte): (gray: Plane)
    ensures gray.SameShape(img)
  {
    MapRaster(img, luma)
  }

  /** An all-black image decomposes into black channels and bit planes, a white
      inversion, and a grayscale image that is black when the luma of black is 0. */
  lemma BlackImageLayers(img: Image, luma: Pixel -> byte, c: Color, bit: nat, k: nat)
    requires forall j :: 0 <= j < |img.data| ==> img.data[j] == Pixel(0, 0, 0)
    requires k < |img.data|
    ensures Channel(img, c).data[k] == 0
    ensures ExtractBitPlane(Channel(img, c), bit).data[k] == 0
    ensures InvertImage(img).data[k] == Pixel(255, 255, 255)
    ensures luma(Pixel(0, 0, 0)) == 0 ==> ToGrayscale(img, luma).data[k] == 0
  {
    assert Bit(0, bit) == 0;
  }

  /** A get_all_bit_planes key: the channel name and the bit index. */
  datatype PlaneKey = PlaneKey(channel: string, bit: nat)

  /** get_all_bit_planes: for each channel in order, for bit 0..7, planes[(name, bit)]
      = extract_bit_plane(channel, bit). */
  method GetAllBitPlanes(img: Image) returns (planes: seq<(PlaneKey, Plane)>)
    ensures |planes| == 24 && DistinctKeys(planes)
    ensures forall i :: 0 <= i < 24 ==>
      planes[i] == (PlaneKey(Colors[i / 8].Name(), i % 8), ExtractBitPlane(Channel(img, Colors[i / 8]), i % 8))
  {
    planes := [];
    var channels := GetColorChannels(img);
    for c := 0 to 3
      invariant |planes| == 8 * c
      invariant forall i :: 0 <= i < |planes| ==> planes[i] == PlaneEntry(img, i)
    {
      var (name, ch) := channels[c];
      assert name == Colors[c].Name() && ch == Channel(img, Colors[c]);
      for bit := 0 to 8
        invariant |planes| == 8 * c + bit
        invariant forall i :: 0 <= i < |planes| ==> planes[i] == PlaneEntry(img, i)
      {
        var key := PlaneKey(name, bit);
        EntryAt(img, c, bit);
        FreshEntry(img, |planes|);
        assert IndexOf(planes, key).None?;
        planes := Put(planes, key, ExtractBitPlane(ch, bit));
      }
    }
    EntriesDistinct(img, planes);
  }

  /** Entry i of get_all_bit_planes: bit i mod 8 of the channel i div 8. */
  function PlaneEntry(img: Image, i: nat): (PlaneKey, Plane)
    requires i < 24
  {
    (PlaneKey(Colors[i / 8].Name(), i % 8), ExtractBitPlane(Channel(img, Colors[i / 8]), i % 8))
  }

  lemma EntryAt(img: Image, c: nat, bit: nat)
    requires c < 3 && bit < 8
    ensures PlaneEntry(img, 8 * c + bit) == (PlaneKey(Colors[c].Name(), bit), ExtractBitPlane(Channel(img, Colors[c]), bit))
  {
    DivModUnique(8 * c + bit, 8, c, bit);
  }

  /** Entry n's key is not the key of any earlier entry. */
  lemma FreshEntry(img: Image, n: nat)
    requires n < 24
    ensures forall i :: 0 <= i < n ==> PlaneEntry(img, i).0 != PlaneEntry(img, n).0
  {
    NamesDistinct();
    forall i | 0 <= i < n
      ensures PlaneEntry(img, i).0 != PlaneEntry(img, n).0
    {
      if i / 8 == n / 8 {
        assert i % 8 != n % 8;
      }
    }
  }

  lemma EntriesDistinct(img: Image, planes: seq<(PlaneKey, Plane)>)
    requires |planes| <= 24
    requires forall i :: 0 <= i < |planes| ==> planes[i] == PlaneEntry(img, i)
    ensures DistinctKeys(planes)
  {
    forall i, j | 0 <= i < j < |planes|
      ensures planes[i].0 != planes[j].0
    {
      FreshEntry(img, j);
    }
  }

  lemma NamesDistinct()
    ensures forall a, b :: 0 <= a < b < 3 ==> Colors[a].Name() != Colors[b].Name()
  {
  }

  /** Python's str(n) for a natural number. */
  function DecimalString(n: nat): string
  {
    if n < 10 then [Digit(n)] else DecimalString(n / 10) + [Digit(n % 10)]
  }

  function Digit(d: nat): char
    requires d < 10
  {
    ['0', '1', '2', '3', '4', '5', '6', '7', '8', '9'][d]
  }

  /** The layer name of a bit plane: its channel's name, "_bit", then the bit
      number in decimal. */
  function BitLayerName(key: PlaneKey): string
  {
    key.channel + "_bit" + DecimalString(key.bit)
  }

  /** The dict comprehension of steg_layers that renames every bit plane to its
      layer name, keeping the planes in their insertion order. */
  function NameBitPlanes(planes: seq<(PlaneKey, Plane)>): seq<(string, Layer)>
  {
    Update([], NamedPlanes(planes))
  }

  /** The pairs of that comprehension, in the order it produces them. */
  function NamedPlanes(planes: seq<(PlaneKey, Plane)>): (named: seq<(string, Layer)>)
    ensures |named| == |planes|
    ensures forall i :: 0 <= i < |planes| ==> named[i] == (BitLayerName(planes[i].0), Gray(planes[i].1))
  {
    seq(|planes|, i requires 0 <= i < |planes| => (BitLayerName(planes[i].0), Gray(planes[i].1)))
  }

  /** The channels as layers, under their own names. */
  function ChannelLayers(channels: seq<(string, Plane)>): (ls: seq<(string, Layer)>)
    ensures |ls| == |channels|
    ensures forall i :: 0 <= i < |channels| ==> ls[i] == (channels[i].0, Gray(channels[i].1))
  {
    seq(|channels|, i requires 0 <= i < |channels| => (channels[i].0, Gray(channels[i].1)))
  }

  /** The 29 layer names, written out in the order the layers are inserted. */
  const LayerNames: seq<string> := [
    "Red", "Green", "Blue",
    "Red_bit0", "Red_bit1", "Red_bit2", "Red_bit3", "Red_bit4", "Red_bit5", "Red_bit6", "Red_bit7",
    "Green_bit0", "Green_bit1", "Green_bit2", "Green_bit3", "Green_bit4", "Green_bit5", "Green_bit6", "Green_bit7",
    "Blue_bit0", "Blue_bit1", "Blue_bit2", "Blue_bit3", "Blue_bit4", "Blue_bit5", "Blue_bit6", "Blue_bit7",
    "invert", "grayscale"]

  /** steg_layers on an image already loaded and converted to RGB; `luma` is
      PIL's grayscale conversion of one pixel. */
  method StegLayers(img: Image, luma: Pixel -> byte) returns (layers: seq<(string, Layer)>)
    requires img.Valid()
    ensures Keys(layers) == LayerNames && DistinctKeys(layers)
    ensures forall i :: 0 <= i < 3 ==> layers[i].1 == Gray(Channel(img, Colors[i]))
    ensures forall i :: 3 <= i < 27 ==>
      layers[i].1 == Gray(ExtractBitPlane(Channel(img, Colors[(i - 3) / 8]), (i - 3) % 8))
    ensures layers[27].1 == Rgb(InvertImage(img))
    ensures layers[28].1 == Gray(ToGrayscale(img, luma))
    ensures forall i :: 0 <= i < |layers| ==>
      layers[i].1.Width() == img.width && layers[i].1.Height() == img.height
  {
    layers := [];
    var channelLayers := ChannelLayers(GetColorChannels(img));
    ChannelLayerKeys(img);
    LayerNamesDistinct();
    UpdateNext(layers, channelLayers, LayerNames);
    layers := Update(layers, channelLayers);
    assert layers == channelLayers;

    var planes := GetAllBitPlanes(img);
    var named := NamedPlanes(planes);
    NamedPlaneKeys(planes);
    UpdateNext(layers, named, LayerNames);
    layers := Update(layers, NameBitPlanes(planes));

    var inv := Rgb(InvertImage(img));
    PutNext(layers, inv, LayerNames);
    layers := Put(layers, "invert", inv);

    var gray := Gray(ToGrayscale(img, luma));
    PutNext(layers, gray, LayerNames);
    layers := Put(layers, "grayscale", gray);
    AssembledLayers(img, luma, planes, layers);
  }

  lemma ChannelLayerKeys(img: Image)
    ensures Keys(ChannelLayers(GetColorChannels(img))) == LayerNames[..3]
  {
  }

  /** The bit-plane layers are keyed by the 24 names after the channels', and
      the comprehension over them keeps them in order. */
  lemma NamedPlaneKeys(planes: seq<(PlaneKey, Plane)>)
    requires |planes| == 24
    requires forall i :: 0 <= i < 24 ==> planes[i].0 == PlaneKey(Colors[i / 8].Name(), i % 8)
    ensures Keys(NamedPlanes(planes)) == LayerNames[3..27]
    ensures NameBitPlanes(planes) == NamedPlanes(planes)
  {
    var named := NamedPlanes(planes);
    BitLayerNames();
    forall i | 0 <= i < 24
      ensures Keys(named)[i] == LayerNames[3 + i]
    {
      assert named[i].0 == BitLayerName(planes[i].0);
    }
    assert Keys(named) == LayerNames[3..27];
    LayerNamesDistinct();
    DistinctRun(named, LayerNames, 3);
    assert [] + named == named;
    UpdateFresh([], named);
  }

  /** The finished dict, entry by entry. */
  lemma AssembledLayers(img: Image, luma: Pixel -> byte, planes: seq<(PlaneKey, Plane)>, layers: seq<(string, Layer)>)
    requires |planes| == 24
    requires forall i :: 0 <= i < 24 ==>
      planes[i] == (PlaneKey(Colors[i / 8].Name(), i % 8), ExtractBitPlane(Channel(img, Colors[i / 8]), i % 8))
    requires layers == ChannelLayers(GetColorChannels(img)) + NamedPlanes(planes)
      + [("invert", Rgb(InvertImage(img)))] + [("grayscale", Gray(ToGrayscale(img, luma)))]
    ensures |layers| == 29
    ensures forall i :: 0 <= i < 3 ==> layers[i].1 == Gray(Channel(img, Colors[i]))
    ensures forall i :: 3 <= i < 27 ==>
      layers[i].1 == Gray(ExtractBitPlane(Channel(img, Colors[(i - 3) / 8]), (i - 3) % 8))
    ensures layers[27].1 == Rgb(InvertImage(img))
    ensures layers[28].1 == Gray(ToGrayscale(img, luma))
    ensures forall i :: 0 <= i < |layers| ==>
      layers[i].1.Width() == img.width && layers[i].1.Height() == img.height
  {
    var named := NamedPlanes(planes);
    forall i | 3 <= i < 27
      ensures layers[i].1 == Gray(ExtractBitPlane(Channel(img, Colors[(i - 3) / 8]), (i - 3) % 8))
    {
      assert layers[i] == named[i - 3];
    }
  }

  /** The layer names of the 24 bit planes, in insertion order. */
  lemma BitLayerNames()
    ensures forall i :: 0 <= i < 24 ==> BitLayerName(PlaneKey(Colors[i / 8].Name(), i % 8)) == LayerNames[3 + i]
  {
    forall i | 0 <= i < 24
      ensures BitLayerName(PlaneKey(Colors[i / 8].Name(), i % 8)) == LayerNames[3 + i]
    {
      var c, b := i / 8, i % 8;
      assert BitLayerName(PlaneKey(Colors[c].Name(), b)) == Colors[c].Name() + "_bit" + [Digit(b)];
      BitLayerNameAt(c, b);
    }
  }

  lemma BitLayerNameAt(c: nat, b: nat)
    requires c < 3 && b < 8
    ensures Colors[c].Name() + "_bit" + [Digit(b)] == LayerNames[3 + 8 * c + b]
  {
  }

  /** The 29 layer names are distinct. */
  lemma LayerNamesDistinct()
    ensures forall i, j :: 0 <= i < j < |LayerNames| ==> LayerNames[i] != LayerNames[j]
  {
  }
}
