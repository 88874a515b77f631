/** Buffer descriptors on the wire, the format they resolve to, and the agreement between the size a
    buffer is allocated with and the size it is later validated against.
 */
module Descriptor {
  import opened Alignment
  import opened GrallocLayout

  const DESCRIPTOR_SIZE := 7
  const MAGIC_VERSION: nat := 0x7631_2E30

  type Word = x: int | 0 <= x < TWO_32

  predicate IsI32(x: int) {
    -(TWO_32 / 2) <= x < TWO_32 / 2
  }

  /** Casts between 32-bit signed and unsigned integers keep the bits. */
  function ToI32(x: Word): (r: int)
    ensures IsI32(r) && r % TWO_32 == x
  {
    if x < TWO_32 / 2 then x else x - TWO_32
  }

  function ToU32(x: int): Word {
    x % TWO_32
  }

  /** What a client asks for. */
  datatype Info = Info(width: Word, height: Word, layerCount: Word, format: int, usage: nat)

  predicate ValidInfo(i: Info) {
    IsI32(i.format) && i.usage < TWO_32 * TWO_32
  }

  /** What the allocator decodes. */
  datatype BufferDescriptor = BufferDescriptor(width: int, height: int, layerCount: Word, format: int, usage: nat)

  datatype Result<T> = Ok(value: T) | BadDescriptor

  function Encode(i: Info): seq<Word> {
    [MAGIC_VERSION, i.width, i.height, i.layerCount, ToU32(i.format), ToU32(i.usage), ToU32(i.usage / TWO_32)]
  }

  function Decode(words: seq<Word>): Result<BufferDescriptor> {
    if |words| != DESCRIPTOR_SIZE || words[0] != MAGIC_VERSION then BadDescriptor
    else
      Ok(BufferDescriptor(ToI32(words[1]), ToI32(words[2]), words[3], ToI32(words[4]), words[6] * TWO_32 + words[5]))
  }

  /** A decoded descriptor is the one that was encoded: the same format, layers and 64-bit usage, and
      dimensions with the same 32 bits. */
  lemma DecodeEncode(i: Info)
    requires ValidInfo(i)
    ensures Decode(Encode(i))
            == Ok(BufferDescriptor(ToI32(i.width), ToI32(i.height), i.layerCount, i.format, i.usage))
  {
    assert i.usage / TWO_32 < TWO_32;
    assert ToI32(ToU32(i.format)) == i.format;
  }

  /** The information a decoded descriptor stands for. */
  function InfoOf(d: BufferDescriptor): Info {
    Info(ToU32(d.width), ToU32(d.height), d.layerCount, d.format, d.usage)
  }

  /** Everything that decodes is the encoding of what it decodes to; nothing else is accepted. */
  lemma EncodeDecode(words: seq<Word>)
    ensures Decode(words).Ok? <==> |words| == DESCRIPTOR_SIZE && words[0] == MAGIC_VERSION
    ensures Decode(words).Ok? ==>
              ValidInfo(InfoOf(Decode(words).value)) && Encode(InfoOf(Decode(words).value)) == words
  {
    if Decode(words).Ok? {
      var high, low := words[6], words[5];
      var usage := high * TWO_32 + low;
      assert usage / TWO_32 == high && usage % TWO_32 == low;
      assert ToU32(ToI32(words[4])) == words[4];
    }
  }

  /** The words on the wire: version "v1.0", width, height, layers, format, and usage with its low word
      first. */
  lemma WireForm(i: Info)
    requires ValidInfo(i)
    ensures |Encode(i)| == 7 && Encode(i)[0] == 0x76 * 0x100_0000 + 0x31 * 0x1_0000 + 0x2E * 0x100 + 0x30
    ensures Encode(i)[1] == i.width && Encode(i)[2] == i.height && Encode(i)[3] == i.layerCount
    ensures (if i.format >= 0 then i.format else i.format + TWO_32) == Encode(i)[4]
    ensures i.usage == Encode(i)[5] + Encode(i)[6] * TWO_32
  {
    assert i.usage / TWO_32 < TWO_32;
  }

  // ---------------------------------------------------------------------------------------------
  // Implementation-defined formats
  // ---------------------------------------------------------------------------------------------

  /** The usage bits that select a format. */
  datatype FormatBits = FormatBits(ubwc: bool, tenBitTp: bool, tenBit: bool, videoEncoder: bool, nv21Encoder: bool,
                                   cameraInput: bool, cameraOutput: bool, composerOverlay: bool)

  /** The numbers of the formats involved, and the format of the camera preview in this build. */
  datatype Codes = Codes(implDefined: int, flexible: int, tp10Ubwc: int, p010Ubwc: int, nv12Ubwc: int, p010Venus: int,
                         nv21Encodeable: int, nv12Encodeable: int, nv21Zsl: int, ycrcb420Sp: int, preview: int,
                         rgba8888: int)

  /** The two placeholders differ from each other and from every format they can stand for. */
  predicate Placeholders(c: Codes) {
    c.implDefined != c.flexible &&
    forall f :: f in Targets(c) ==> f != c.implDefined && f != c.flexible
  }

  function Targets(c: Codes): seq<int> {
    [c.tp10Ubwc, c.p010Ubwc, c.nv12Ubwc, c.p010Venus, c.nv21Encodeable, c.nv12Encodeable, c.nv21Zsl, c.ycrcb420Sp,
     c.preview, c.rgba8888]
  }

  function ImplDefinedFormat(c: Codes, b: FormatBits, format: int): int {
    if format != c.implDefined && format != c.flexible then format
    else if b.ubwc then
      if b.tenBitTp then c.tp10Ubwc else if b.tenBit then c.p010Ubwc else c.nv12Ubwc
    else if b.tenBit then c.p010Venus
    else if b.videoEncoder then
      if b.nv21Encoder then c.nv21Encodeable else c.nv12Encodeable
    else if b.cameraInput then
      if b.cameraOutput then c.nv21Zsl else c.ycrcb420Sp
    else if b.cameraOutput then
      if format == c.flexible then c.nv21Zsl else c.preview
    else if b.composerOverlay then c.rgba8888
    else if format == c.flexible then c.nv21Zsl
    else format
  }

  /** Resolving is idempotent; the flexible format is always resolved, the implementation-defined one
      unless no bit selects a format. */
  lemma ResolvedStaysResolved(c: Codes, b: FormatBits, format: int)
    requires Placeholders(c)
    ensures var r := ImplDefinedFormat(c, b, format);
            && ImplDefinedFormat(c, b, r) == r && r != c.flexible
            && (r == c.implDefined <==> format == c.implDefined && !b.ubwc && !b.tenBit && !b.videoEncoder
                                        && !b.cameraInput && !b.cameraOutput && !b.composerOverlay)
  {
    var t := Targets(c);
    assert forall i :: 0 <= i < |t| ==> t[i] in t;
    assert t[0] == c.tp10Ubwc && t[1] == c.p010Ubwc && t[2] == c.nv12Ubwc && t[3] == c.p010Venus;
    assert t[4] == c.nv21Encodeable && t[5] == c.nv12Encodeable && t[6] == c.nv21Zsl && t[7] == c.ycrcb420Sp;
    assert t[8] == c.preview && t[9] == c.rgba8888;
  }

  /** The rules that select a format for a placeholder, by the usage bits they ask for, the strongest first;
      the last one always applies. */
  predicate Selects(b: FormatBits, k: nat) {
    match k
    case 0 => b.ubwc && b.tenBitTp
    case 1 => b.ubwc && b.tenBit
    case 2 => b.ubwc
    case 3 => b.tenBit
    case 4 => b.videoEncoder && b.nv21Encoder
    case 5 => b.videoEncoder
    case 6 => b.cameraInput && b.cameraOutput
    case 7 => b.cameraInput
    case 8 => b.cameraOutput
    case 9 => b.composerOverlay
    case _ => true
  }

  function Selected(c: Codes, flexible: bool, k: nat): int {
    match k
    case 0 => c.tp10Ubwc
    case 1 => c.p010Ubwc
    case 2 => c.nv12Ubwc
    case 3 => c.p010Venus
    case 4 => c.nv21Encodeable
    case 5 => c.nv12Encodeable
    case 6 => c.nv21Zsl
    case 7 => c.ycrcb420Sp
    case 8 => if flexible then c.nv21Zsl else c.preview
    case 9 => c.rgba8888
    case _ => if flexible then c.nv21Zsl else c.implDefined
  }

  /** A placeholder resolves to the format of the first rule that its usage meets; other formats stay. */
  lemma FirstRuleDecides(c: Codes, b: FormatBits, format: int, k: nat)
    requires c.implDefined != c.flexible && k <= 10 && Selects(b, k) && forall j :: 0 <= j < k ==> !Selects(b, j)
    ensures format == c.implDefined || format == c.flexible ==>
              ImplDefinedFormat(c, b, format) == Selected(c, format == c.flexible, k)
    ensures format != c.implDefined && format != c.flexible ==> ImplDefinedFormat(c, b, format) == format
  {
    assert k > 0 ==> !Selects(b, 0);
    assert k > 1 ==> !Selects(b, 1);
    assert k > 2 ==> !Selects(b, 2);
    assert k > 3 ==> !Selects(b, 3);
    assert k > 4 ==> !Selects(b, 4);
    assert k > 5 ==> !Selects(b, 5);
    assert k > 6 ==> !Selects(b, 6);
    assert k > 7 ==> !Selects(b, 7);
    assert k > 8 ==> !Selects(b, 8);
    assert k > 9 ==> !Selects(b, 9);
  }

  // ---------------------------------------------------------------------------------------------
  // Allocation and validation
  // ---------------------------------------------------------------------------------------------

  /** The layer description both sides build: signed dimensions and the resolved format. */
  datatype Layer = Layer(width: int, height: int, format: int, usage: nat)

  /** The build and device: formats, usage bits, and for each layer its bytes in 32-bit arithmetic, or
      nothing if the description is refused. */
  datatype Device = Device(cfg: Config, codes: Codes, formatBits: nat -> FormatBits, usage: nat -> Usage,
                           kind: int -> Format, layerBytes: Layer -> Result<nat>)

  function SizeOf(dev: Device, layer: Layer, layers: nat): nat {
    match dev.layerBytes(layer)
    case BadDescriptor => 0
    case Ok(bytes) =>
      Layers(bytes, DataAlignment(dev.cfg, dev.kind(layer.format), dev.usage(layer.usage)), layers, true)
  }

  function LayerOf(dev: Device, width: int, height: int, format: int, usage: nat): Layer {
    Layer(width, height, ImplDefinedFormat(dev.codes, dev.formatBits(usage), format), usage)
  }

  /** The size of the ION buffer that allocation creates: at least `bufferSize`, rounded to pages by the
      kernel. */
  function AllocatedSize(dev: Device, d: BufferDescriptor, bufferSize: nat): nat {
    var size := SizeOf(dev, LayerOf(dev, d.width, d.height, d.format, d.usage), d.layerCount);
    AlignUp(if bufferSize >= size then bufferSize else size, PAGE)
  }

  /** Validation of a buffer against the information it was requested with. */
  predicate ValidatesBufferSize(dev: Device, ionSize: nat, i: Info) {
    SizeOf(dev, LayerOf(dev, ToI32(i.width), ToI32(i.height), i.format, i.usage), i.layerCount) == ionSize % TWO_32
  }

  /** The size of the layers is always a whole number of pages below 4 GB. */
  lemma SizeOfPages(dev: Device, layer: Layer, layers: nat)
    ensures SizeOf(dev, layer, layers) % PAGE == 0 && SizeOf(dev, layer, layers) < TWO_32
  {
    match dev.layerBytes(layer)
    case BadDescriptor =>
    case Ok(bytes) =>
      LayersArePageMultiple(bytes, DataAlignment(dev.cfg, dev.kind(layer.format), dev.usage(layer.usage)), layers, true);
  }

  /** A buffer allocated from the encoded descriptor passes validation for the same information if and
      only if no larger size was forced on it. */
  lemma AllocatedBufferValidatesIff(dev: Device, i: Info, bufferSize: nat)
    requires ValidInfo(i) && bufferSize + PAGE <= TWO_32
    ensures Decode(Encode(i)).Ok?
    ensures ValidatesBufferSize(dev, AllocatedSize(dev, Decode(Encode(i)).value, bufferSize), i)
            <==> bufferSize <= SizeOf(dev, LayerOf(dev, ToI32(i.width), ToI32(i.height), i.format, i.usage), i.layerCount)
  {
    DecodeEncode(i);
    var layer := LayerOf(dev, ToI32(i.width), ToI32(i.height), i.format, i.usage);
    SizeOfPages(dev, layer, i.layerCount);
    RoundedIff(SizeOf(dev, layer, i.layerCount), bufferSize);
  }

  lemma RoundedIff(size: nat, bufferSize: nat)
    requires size % PAGE == 0 && size < TWO_32 && bufferSize + PAGE <= TWO_32
    ensures size == AlignUp(if bufferSize >= size then bufferSize else size, PAGE) % TWO_32 <==> bufferSize <= size
  {
    var m := if bufferSize >= size then bufferSize else size;
    var rounded := AlignUp(m, PAGE);
    if bufferSize <= size {
      assert rounded == size by {
        AlignUpUnique(size, PAGE, size);
      }
    } else {
      assert size < rounded < TWO_32;
    }
    Unwrapped(rounded);
  }

  lemma Unwrapped(x: nat)
    requires x < TWO_32
    ensures x % TWO_32 == x
  {
  }

  /** The device whose layers are the linear formats. */
  function LinearDevice(cfg: Config, codes: Codes, formatBits: nat -> FormatBits, usage: nat -> Usage, kind: int -> Format)
    : Device
  {
    Device(cfg, codes, formatBits, usage, kind,
           (layer: Layer) =>
             if layer.width < 0 || layer.height < 0 || !ValidConfig(cfg) then BadDescriptor
             else
               var info := BufferInfo(layer.width, layer.height, kind(layer.format), 1, usage(layer.usage));
               var (w, h) := AlignedDimensions(cfg, info);
               if Rejected(info) then BadDescriptor else Ok(LayerBytes(info, w, h, true)))
  }

  /** The ION buffer made for a linear format has exactly the size that its planes are laid out in: the
      kernel's rounding to pages adds nothing. */
  lemma LinearBufferHasItsSize(dev: Device, d: BufferDescriptor)
    requires dev == LinearDevice(dev.cfg, dev.codes, dev.formatBits, dev.usage, dev.kind) && ValidConfig(dev.cfg)
    requires d.width >= 0 && d.height >= 0
    ensures var format := dev.kind(ImplDefinedFormat(dev.codes, dev.formatBits(d.usage), d.format));
            var info := BufferInfo(d.width, d.height, format, d.layerCount, dev.usage(d.usage));
            var (w, h) := AlignedDimensions(dev.cfg, info);
            AllocatedSize(dev, d, 0) == GetSize(dev.cfg, info, w, h, true)
  {
    var layer := LayerOf(dev, d.width, d.height, d.format, d.usage);
    var format := dev.kind(layer.format);
    var info := BufferInfo(d.width, d.height, format, d.layerCount, dev.usage(d.usage));
    var (w, h) := AlignedDimensions(dev.cfg, info);
    assert SizeOf(dev, layer, d.layerCount) == GetSize(dev.cfg, info, w, h, true) by {
      SizeOfLinear(dev, layer, d.layerCount);
    }
    var size := SizeOf(dev, layer, d.layerCount);
    SizeOfPages(dev, layer, d.layerCount);
    AlignUpUnique(size, PAGE, size);
  }

  lemma SizeOfLinear(dev: Device, layer: Layer, layers: nat)
    requires dev == LinearDevice(dev.cfg, dev.codes, dev.formatBits, dev.usage, dev.kind) && ValidConfig(dev.cfg)
    requires layer.width >= 0 && layer.height >= 0
    ensures var info := BufferInfo(layer.width, layer.height, dev.kind(layer.format), layers, dev.usage(layer.usage));
            var (w, h) := AlignedDimensions(dev.cfg, info);
            SizeOf(dev, layer, layers) == GetSize(dev.cfg, info, w, h, true)
  {
    var info := BufferInfo(layer.width, layer.height, dev.kind(layer.format), layers, dev.usage(layer.usage));
    var single := info.(layers := 1);
    var (w, h) := AlignedDimensions(dev.cfg, info);
    assert AlignedDimensions(dev.cfg, single) == (w, h);
    assert LayerBytes(single, w, h, true) == LayerBytes(info, w, h, true) && Rejected(single) == Rejected(info);
    assert dev.layerBytes(layer) == if Rejected(info) then BadDescriptor else Ok(LayerBytes(info, w, h, true));
  }
}
