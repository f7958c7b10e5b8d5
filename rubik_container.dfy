/** The "Rubik" container of `medi-crypt-app.tsx`: `encryptImageRubik` writes
    the text header `encrypted-<name>-type:<mime>-` in UTF-8 followed by the
    file's bytes, each XORed with the low byte of a key character and with the
    low byte of `rotationLayers % 256`; `decryptImageRubik` reads the header back
    from the first 2048 bytes, recomputes its byte length, cuts the payload off
    and applies the same XOR. Nothing authenticates the key. */
module RubikContainer {
  import opened Wrappers
  import opened JsString
  import opened Utf8

  const EncryptedMarker: string := "encrypted-"
  const TypeMarker: string := "-type:"
  const EndMetadataMarker: string := "-"
  /** Decryption looks for the header in at most this many leading bytes. */
  const MetadataSearchLimit: nat := 2048

  /** The `File` handed to encryption: its `name`, `type` and contents. */
  datatype SourceFile = SourceFile(name: string, mimeType: string, bytes: seq<uint8>)

  /** What decryption recovers: the payload (the decrypted `Blob`), the
      `Blob`'s type, and the name and type read from the header. */
  datatype DecryptedFile = DecryptedFile(bytes: seq<uint8>, blobType: string, originalName: string, originalType: string)

  /** The `Error`s `decryptImageRubik` throws, in the order it checks them. */
  datatype DecryptError =
    | MissingEncryptedPrefix
    | MissingTypeMarker
    | EmptyOriginalName
    | MissingEndMarker
    | ShorterThanMetadata

  datatype Metadata = Metadata(originalName: string, originalType: string)

  function Min(a: int, b: int): int {
    if a <= b then a else b
  }

  function Pow2(n: nat): (p: nat)
    ensures p >= 1
  {
    if n == 0 then 1 else 2 * Pow2(n - 1)
  }

  /** The bitwise XOR of the low `n` bits of `a` and `b`, from the lowest bit up. */
  function XorBits(a: nat, b: nat, n: nat): (r: nat)
    ensures r < Pow2(n)
    decreases n
  {
    if n == 0 then 0 else (a + b) % 2 + 2 * XorBits(a / 2, b / 2, n - 1)
  }

  /** JavaScript's `^` on two bytes. */
  function Xor(a: uint8, b: uint8): uint8 {
    assert Pow2(8) == 256;
    XorBits(a, b, 8)
  }

  /** The low byte of `key.charCodeAt(i % key.length)`, which is all that
      survives `setUint8`. For an empty key `i % 0` is NaN, `charCodeAt(NaN)`
      reads index 0 of an empty string and yields NaN, and XOR takes NaN as 0. */
  function KeyByte(key: string, i: nat): (k: uint8)
    ensures key == "" ==> k == 0
    ensures key != "" ==> exists j :: 0 <= j < |CodeUnits(key)| && k == CodeUnits(key)[j] % 256
  {
    var units := CodeUnits(key);
    if |units| == 0 then 0 else units[i % |units|] % 256
  }

  /** The low byte of `rotationLayers % 256`. JavaScript's `%` keeps the sign of
      the dividend, but the low byte of the two's-complement result is the
      Euclidean remainder for every integer. */
  function LayerByte(rotationLayers: int): uint8 {
    rotationLayers % 256
  }

  /** The byte the loop writes at index `i` of the payload. */
  function ScrambleByte(b: uint8, key: string, i: nat, rotationLayers: int): uint8 {
    Xor(Xor(b, KeyByte(key, i)), LayerByte(rotationLayers))
  }

  /** The payload after the XOR loop. */
  function Scramble(data: seq<uint8>, key: string, rotationLayers: int): (r: seq<uint8>)
    ensures |r| == |data|
  {
    seq(|data|, i requires 0 <= i < |data| => ScrambleByte(data[i], key, i, rotationLayers))
  }

  /** The text header written in front of the payload. */
  function MetadataPrefix(name: string, mimeType: string): (p: string)
    ensures |p| == |EncryptedMarker| + |name| + |TypeMarker| + |mimeType| + |EndMetadataMarker|
  {
    EncryptedMarker + name + TypeMarker + mimeType + EndMetadataMarker
  }

  /** The bytes of the container that `encryptImageRubik` produces. */
  function Container(file: SourceFile, key: string, rotationLayers: int): (c: seq<uint8>)
    ensures |c| == |Encode(MetadataPrefix(file.name, file.mimeType))| + |file.bytes|
  {
    Encode(MetadataPrefix(file.name, file.mimeType)) + Scramble(file.bytes, key, rotationLayers)
  }

  /** The text decryption searches: the decoding of the first
      `min(2048, length)` bytes. */
  function HeaderText(buffer: seq<uint8>): (h: string)
    ensures |h| <= Min(MetadataSearchLimit, |buffer|)
  {
    Decode(buffer[..Min(MetadataSearchLimit, |buffer|)])
  }

  /** The header checks of `decryptImageRubik`, in the order it makes them. */
  function ParseMetadata(headerText: string): (r: Result<Metadata, DecryptError>)
    ensures r.Success? ==> StartsWith(headerText, EncryptedMarker)
    ensures r.Success? ==> r.value.originalName != ""
    ensures r.Success? ==> '-' !in r.value.originalType
  {
    if !StartsWith(headerText, EncryptedMarker) then Failure(MissingEncryptedPrefix)
    else
      var typeStartIndex := IndexOf(headerText, TypeMarker, 0);
      if typeStartIndex == -1 then Failure(MissingTypeMarker)
      else
        var originalName := Substring(headerText, |EncryptedMarker|, typeStartIndex);
        if originalName == "" then Failure(EmptyOriginalName)
        else
          var typeValueStartIndex := typeStartIndex + |TypeMarker|;
          var typeEndIndex := IndexOf(headerText, EndMetadataMarker, typeValueStartIndex);
          if typeEndIndex == -1 then Failure(MissingEndMarker)
          else
            var originalType := Substring(headerText, typeValueStartIndex, typeEndIndex);
            assert '-' !in originalType by {
              assert EndMetadataMarker == ['-'];
              NoCharBeforeIndex(headerText, '-', typeValueStartIndex);
            }
            Success(Metadata(originalName, originalType))
  }

  /** The byte length of the header rebuilt from the parsed name and type. */
  function MetadataLength(m: Metadata): nat {
    |Encode(MetadataPrefix(m.originalName, m.originalType))|
  }

  predicate IsPrintableAscii(t: string) {
    forall i :: 0 <= i < |t| ==> ' ' <= t[i] <= '~'
  }

  /** The type a `Blob` keeps of the one it is given: empty when a character
      lies outside U+0020..U+007E, otherwise lower-cased (section 3.1 of the
      File API). */
  function NormalizeBlobType(t: string): (r: string)
    ensures IsPrintableAscii(t) ==> |r| == |t| && forall i :: 0 <= i < |t| ==> r[i] == LowerChar(t[i])
    ensures !IsPrintableAscii(t) ==> r == ""
  {
    if IsPrintableAscii(t) then ToLower(t) else ""
  }

  /** The type of the decrypted `Blob`, built with
      `type: originalType || 'application/octet-stream'` (the default is
      already in normal form, so only a given type is normalized). */
  function BlobType(originalType: string): (t: string)
    ensures originalType == "" ==> t == "application/octet-stream"
    ensures originalType != "" && IsPrintableAscii(originalType) && ToLower(originalType) == originalType
            ==> t == originalType
    ensures originalType != "" && !IsPrintableAscii(originalType) ==> t == ""
  {
    if originalType == "" then "application/octet-stream" else NormalizeBlobType(originalType)
  }

  /** What `decryptImageRubik` returns or throws. */
  function Decrypt(buffer: seq<uint8>, providedKey: string, rotationLayers: int): (r: Result<DecryptedFile, DecryptError>)
    ensures r.Success? ==> r.value.originalName != "" && '-' !in r.value.originalType
    ensures r.Success? ==> r.value.blobType == BlobType(r.value.originalType)
    ensures r.Success? ==>
      |r.value.bytes| == |buffer| - MetadataLength(Metadata(r.value.originalName, r.value.originalType))
  {
    match ParseMetadata(HeaderText(buffer))
    case Failure(e) => Failure(e)
    case Success(m) =>
      var metadataLength := MetadataLength(m);
      if |buffer| < metadataLength then Failure(ShorterThanMetadata)
      else
        Success(DecryptedFile(Scramble(buffer[metadataLength..], providedKey, rotationLayers),
                              BlobType(m.originalType), m.originalName, m.originalType))
  }

  /** The `for` loop over the `DataView`: every byte is XORed in place. */
  method ScrambleInPlace(view: array<uint8>, key: string, rotationLayers: int)
    modifies view
    ensures view[..] == Scramble(old(view[..]), key, rotationLayers)
  {
    ghost var original := view[..];
    var i := 0;
    while i < view.Length
      invariant 0 <= i <= view.Length
      invariant view[..i] == Scramble(original, key, rotationLayers)[..i]
      invariant view[i..] == original[i..]
    {
      var b := view[i];
      assert b == original[i];
      view[i] := Xor(Xor(b, KeyByte(key, i)), LayerByte(rotationLayers));
      assert view[..i + 1] == view[..i] + [view[i]];
      i := i + 1;
    }
    assert view[..] == view[..i];
    assert Scramble(original, key, rotationLayers)[..i] == Scramble(original, key, rotationLayers);
  }

  /** `target.set(source, offset)`. */
  method SetBytes(target: array<uint8>, source: seq<uint8>, offset: nat)
    requires offset + |source| <= target.Length
    modifies target
    ensures target[..] == old(target[..offset]) + source + old(target[offset + |source|..])
  {
    ghost var before := target[..];
    var i := 0;
    while i < |source|
      invariant 0 <= i <= |source|
      invariant target[..offset] == before[..offset]
      invariant target[offset..offset + i] == source[..i]
      invariant target[offset + i..] == before[offset + i..]
    {
      target[offset + i] := source[i];
      assert target[offset..offset + i + 1] == target[offset..offset + i] + [source[i]];
      i := i + 1;
    }
    assert target[..] == target[..offset] + target[offset..offset + i] + target[offset + i..];
  }

  /** `encryptImageRubik`: the container is the UTF-8 header followed by the
      scrambled payload. */
  method EncryptImageRubik(file: SourceFile, key: string, rotationLayers: int) returns (encryptedFile: array<uint8>)
    ensures fresh(encryptedFile)
    ensures encryptedFile[..] == Encode(MetadataPrefix(file.name, file.mimeType)) + Scramble(file.bytes, key, rotationLayers)
  {
    var arrayBuffer := new uint8[|file.bytes|](i requires 0 <= i < |file.bytes| => file.bytes[i]);
    assert arrayBuffer[..] == file.bytes;
    ScrambleInPlace(arrayBuffer, key, rotationLayers);
    var payload := arrayBuffer[..];
    var metadataBuffer := Encode(MetadataPrefix(file.name, file.mimeType));
    var finalBuffer := new uint8[|metadataBuffer| + |payload|];
    SetBytes(finalBuffer, metadataBuffer, 0);
    assert finalBuffer[..|metadataBuffer|] == metadataBuffer;
    SetBytes(finalBuffer, payload, |metadataBuffer|);
    assert finalBuffer[|metadataBuffer| + |payload|..] == [];
    encryptedFile := finalBuffer;
  }

  /** `decryptImageRubik`: parses the header, slices the payload off and
      undoes the XOR in place. */
  method DecryptImageRubik(encryptedFile: seq<uint8>, providedKey: string, rotationLayers: int)
    returns (r: Result<DecryptedFile, DecryptError>)
    ensures r == Decrypt(encryptedFile, providedKey, rotationLayers)
  {
    var metadataSearchLimit := Min(MetadataSearchLimit, |encryptedFile|);
    var headerText := Decode(encryptedFile[..metadataSearchLimit]);
    var parsed := ParseMetadata(headerText);
    if parsed.Failure? {
      return Failure(parsed.error);
    }
    var originalName, originalType := parsed.value.originalName, parsed.value.originalType;
    var metadataLength := |Encode(MetadataPrefix(originalName, originalType))|;
    if |encryptedFile| < metadataLength {
      return Failure(ShorterThanMetadata);
    }
    var payload := encryptedFile[metadataLength..];
    var decryptedDataView := new uint8[|payload|](i requires 0 <= i < |payload| => payload[i]);
    assert decryptedDataView[..] == payload;
    ScrambleInPlace(decryptedDataView, providedKey, rotationLayers);
    r := Success(DecryptedFile(decryptedDataView[..], BlobType(originalType), originalName, originalType));
  }
}
