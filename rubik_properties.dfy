/** What the Rubik container does and does not guarantee: the XOR transform
    undoes itself, a well-formed container decrypts to the file it was made
    from, any key "decrypts", and the header format loses information for
    names and types that contain its delimiters. */
module RubikProperties {
  import opened Wrappers
  import opened JsString
  import opened Utf8
  import opened RubikContainer

  lemma {:induction false} XorBitsCommutes(a: nat, b: nat, n: nat)
    ensures XorBits(a, b, n) == XorBits(b, a, n)
    decreases n
  {
    if n > 0 {
      XorBitsCommutes(a / 2, b / 2, n - 1);
    }
  }

  /** The lowest bit of an XOR and the XOR of the remaining bits. */
  lemma XorBitsStep(a: nat, b: nat, n: nat)
    requires n > 0
    ensures XorBits(a, b, n) % 2 == (a + b) % 2
    ensures XorBits(a, b, n) / 2 == XorBits(a / 2, b / 2, n - 1)
  {
    var h := XorBits(a / 2, b / 2, n - 1);
    var bit := (a + b) % 2;
    assert XorBits(a, b, n) == bit + 2 * h;
  }

  lemma SameBitsAndRest(x: nat, y: nat)
    requires x % 2 == y % 2 && x / 2 == y / 2
    ensures x == y
  {
  }

  lemma ParityRegroup(a: nat, b: nat, c: nat, r: nat, s: nat)
    requires r % 2 == (a + b) % 2 && s % 2 == (b + c) % 2
    ensures (r + c) % 2 == (a + s) % 2
  {
  }

  lemma {:induction false} XorBitsAssociates(a: nat, b: nat, c: nat, n: nat)
    ensures XorBits(XorBits(a, b, n), c, n) == XorBits(a, XorBits(b, c, n), n)
    decreases n
  {
    if n > 0 {
      var r, s := XorBits(a, b, n), XorBits(b, c, n);
      XorBitsStep(a, b, n);
      XorBitsStep(b, c, n);
      XorBitsStep(r, c, n);
      XorBitsStep(a, s, n);
      XorBitsAssociates(a / 2, b / 2, c / 2, n - 1);
      ParityRegroup(a, b, c, r, s);
      SameBitsAndRest(XorBits(r, c, n), XorBits(a, s, n));
    }
  }

  lemma {:induction false} XorBitsSelf(a: nat, n: nat)
    ensures XorBits(a, a, n) == 0
    decreases n
  {
    if n > 0 {
      XorBitsSelf(a / 2, n - 1);
    }
  }

  lemma {:induction false} XorBitsZero(a: nat, n: nat)
    requires a < Pow2(n)
    ensures XorBits(a, 0, n) == a
    decreases n
  {
    if n > 0 {
      XorBitsZero(a / 2, n - 1);
    }
  }

  lemma XorCommutes(a: uint8, b: uint8)
    ensures Xor(a, b) == Xor(b, a)
  {
    XorBitsCommutes(a, b, 8);
  }

  lemma XorAssociates(a: uint8, b: uint8, c: uint8)
    ensures Xor(Xor(a, b), c) == Xor(a, Xor(b, c))
  {
    XorBitsAssociates(a, b, c, 8);
  }

  lemma XorSelf(a: uint8)
    ensures Xor(a, a) == 0
  {
    XorBitsSelf(a, 8);
  }

  lemma XorZero(a: uint8)
    ensures Xor(a, 0) == a && Xor(0, a) == a
  {
    assert Pow2(8) == 256;
    XorBitsZero(a, 8);
    XorCommutes(a, 0);
  }

  lemma XorRegroup(a: uint8, k1: uint8, l1: uint8, k2: uint8, l2: uint8)
    ensures Xor(Xor(Xor(Xor(a, k1), l1), k2), l2) == Xor(a, Xor(Xor(k1, k2), Xor(l1, l2)))
  {
    var ak := Xor(a, k1);
    calc {
      Xor(Xor(Xor(ak, l1), k2), l2);
      { XorAssociates(ak, l1, k2); }
      Xor(Xor(ak, Xor(l1, k2)), l2);
      { XorCommutes(l1, k2); }
      Xor(Xor(ak, Xor(k2, l1)), l2);
      { XorAssociates(ak, k2, l1); }
      Xor(Xor(Xor(ak, k2), l1), l2);
      { XorAssociates(a, k1, k2); }
      Xor(Xor(Xor(a, Xor(k1, k2)), l1), l2);
      { XorAssociates(Xor(a, Xor(k1, k2)), l1, l2); }
      Xor(Xor(a, Xor(k1, k2)), Xor(l1, l2));
      { XorAssociates(a, Xor(k1, k2), Xor(l1, l2)); }
      Xor(a, Xor(Xor(k1, k2), Xor(l1, l2)));
    }
  }

  /** Replacing `l1` by `l2` in an XOR is XORing with `l1 ^ l2`. */
  lemma XorSwap(x: uint8, l1: uint8, l2: uint8)
    ensures Xor(x, l2) == Xor(Xor(x, l1), Xor(l1, l2))
  {
    XorAssociates(x, l1, Xor(l1, l2));
    XorAssociates(l1, l1, l2);
    XorSelf(l1);
    XorZero(l2);
  }

  /** Scrambling with `(k1, l1)` and then with `(k2, l2)` XORs each byte with
      the XOR of the two key bytes and of the two layer bytes. */
  lemma ScrambleTwice(data: seq<uint8>, k1: string, l1: int, k2: string, l2: int)
    ensures var r := Scramble(Scramble(data, k1, l1), k2, l2);
      forall i :: 0 <= i < |data| ==>
        r[i] == Xor(data[i], Xor(Xor(KeyByte(k1, i), KeyByte(k2, i)), Xor(LayerByte(l1), LayerByte(l2))))
  {
    forall i | 0 <= i < |data| {
      XorRegroup(data[i], KeyByte(k1, i), LayerByte(l1), KeyByte(k2, i), LayerByte(l2));
    }
  }

  /** The XOR transform is an involution. */
  lemma ScrambleInvolution(data: seq<uint8>, key: string, rotationLayers: int)
    ensures Scramble(Scramble(data, key, rotationLayers), key, rotationLayers) == data
  {
    ScrambleTwice(data, key, rotationLayers, key, rotationLayers);
    forall i | 0 <= i < |data|
      ensures Scramble(Scramble(data, key, rotationLayers), key, rotationLayers)[i] == data[i]
    {
      XorSelf(KeyByte(key, i));
      XorSelf(LayerByte(rotationLayers));
      XorSelf(0);
      XorZero(data[i]);
    }
  }

  /** For a key of BMP characters the key byte is the low byte of the key
      character at `i % |key|`. */
  lemma KeyByteOfBmpKey(key: string, i: nat)
    requires IsBmp(key) && key != ""
    ensures KeyByte(key, i) == key[i % |key|] as int % 256
  {
    CodeUnitsOfBmp(key);
  }

  /** A name that the header keeps apart from the type marker: non-empty,
      without `-type:`, and not starting with `type:` (which would complete a
      `-type:` with the hyphen of `encrypted-`). */
  predicate NameSurvivesHeader(name: string) {
    name != "" && !Includes(name, TypeMarker) && !StartsWith(name, "type:")
  }

  lemma PrefixLayout(name: string, t: string, junk: string)
    ensures var text := MetadataPrefix(name, t) + junk;
      var q := |EncryptedMarker| + |name|;
      && |text| == q + |TypeMarker| + |t| + 1 + |junk|
      && text[..|EncryptedMarker|] == EncryptedMarker
      && text[|EncryptedMarker|..q] == name
      && text[q..q + |TypeMarker|] == TypeMarker
      && text[q + |TypeMarker|..q + |TypeMarker| + |t|] == t
      && text[q + |TypeMarker| + |t|] == '-'
  {
    var text := MetadataPrefix(name, t) + junk;
    assert text == EncryptedMarker + name + TypeMarker + t + EndMetadataMarker + junk;
  }

  /** No `-type:` starts before the one the header writes after the name. */
  lemma NoEarlyTypeMarker(name: string, t: string, junk: string, k: int)
    requires NameSurvivesHeader(name)
    requires 0 <= k < |EncryptedMarker| + |name|
    ensures !OccursAt(MetadataPrefix(name, t) + junk, TypeMarker, k)
  {
    var text := MetadataPrefix(name, t) + junk;
    var q := |EncryptedMarker| + |name|;
    PrefixLayout(name, t, junk);
    var w := text[k..k + |TypeMarker|];
    if k < 9 {
      assert text[k] == EncryptedMarker[k];
      assert w[0] != TypeMarker[0];
    } else if k == 9 {
      if |name| >= 5 {
        assert w[1..] == text[10..15] == name[..5];
        assert TypeMarker[1..] == "type:";
      } else {
        assert w[q - 9] == text[q];
        assert TypeMarker[q - 9] != '-';
      }
    } else if k + |TypeMarker| <= q {
      assert w == name[k - 10..k - 4];
      IncludesIff(name, TypeMarker);
      assert !OccursAt(name, TypeMarker, k - 10);
    } else {
      assert w[q - k] == text[q] == '-';
      assert TypeMarker[q - k] != '-';
    }
  }

  lemma ParseFramed(name: string, t: string, junk: string)
    requires NameSurvivesHeader(name) && '-' !in t
    ensures ParseMetadata(MetadataPrefix(name, t) + junk) == Success(Metadata(name, t))
  {
    var text := MetadataPrefix(name, t) + junk;
    PrefixLayout(name, t, junk);
    TypeMarkerFramed(name, t, junk);
    EndMarkerFramed(name, t, junk);
    ParseAtIndices(text, name, t);
  }

  /** The header's first `-type:` is the one written after the name. */
  lemma TypeMarkerFramed(name: string, t: string, junk: string)
    requires NameSurvivesHeader(name)
    ensures IndexOf(MetadataPrefix(name, t) + junk, TypeMarker, 0) == |EncryptedMarker| + |name|
  {
    var text := MetadataPrefix(name, t) + junk;
    var q := |EncryptedMarker| + |name|;
    PrefixLayout(name, t, junk);
    forall k | 0 <= k < q ensures !OccursAt(text, TypeMarker, k) {
      NoEarlyTypeMarker(name, t, junk, k);
    }
    IndexOfIs(text, TypeMarker, 0, q);
  }

  /** After the type marker, the first `-` is the one closing the type. */
  lemma EndMarkerFramed(name: string, t: string, junk: string)
    requires '-' !in t
    ensures var vs := |EncryptedMarker| + |name| + |TypeMarker|;
      IndexOf(MetadataPrefix(name, t) + junk, EndMetadataMarker, vs) == vs + |t|
  {
    var text := MetadataPrefix(name, t) + junk;
    var vs := |EncryptedMarker| + |name| + |TypeMarker|;
    PrefixLayout(name, t, junk);
    assert OccursAt(text, EndMetadataMarker, vs + |t|) by {
      assert text[vs + |t|..vs + |t| + 1] == [text[vs + |t|]];
    }
    forall k | vs <= k < vs + |t| ensures !OccursAt(text, EndMetadataMarker, k) {
      assert text[k] == t[k - vs];
      assert text[k..k + 1][0] == text[k];
    }
    IndexOfIs(text, EndMetadataMarker, vs, vs + |t|);
  }

  /** The parse of a header whose markers have been located. */
  lemma ParseAtIndices(text: string, name: string, t: string)
    requires name != ""
    requires StartsWith(text, EncryptedMarker)
    requires IndexOf(text, TypeMarker, 0) == |EncryptedMarker| + |name|
    requires text[|EncryptedMarker|..|EncryptedMarker| + |name|] == name
    requires IndexOf(text, EndMetadataMarker, |EncryptedMarker| + |name| + |TypeMarker|)
          == |EncryptedMarker| + |name| + |TypeMarker| + |t|
    requires text[|EncryptedMarker| + |name| + |TypeMarker|..|EncryptedMarker| + |name| + |TypeMarker| + |t|] == t
    ensures ParseMetadata(text) == Success(Metadata(name, t))
  {
  }

  /** The header text of a buffer that begins with the encoding of a string
      starting `encrypted-`, when that encoding fits in the search window. */
  lemma HeaderTextFramed(p: string, rest: seq<uint8>) returns (junk: string)
    requires StartsWith(p, EncryptedMarker)
    requires |Encode(p)| <= MetadataSearchLimit
    ensures HeaderText(Encode(p) + rest) == p + junk
  {
    var e := Encode(p);
    var n := Min(MetadataSearchLimit - |e|, |rest|);
    junk := DecodeNoBom(rest[..n]);
    assert (e + rest)[..Min(MetadataSearchLimit, |e + rest|)] == e + rest[..n];
    assert p[0] == EncryptedMarker[0] == 'e';
    assert e == EncodeChar(p[0]) + Encode(p[1..]);
    assert !StartsWithBom(e + rest[..n]);
    DecodeEncodePrefix(p, rest[..n]);
  }

  /** Once the header of a buffer has been parsed, decryption is fixed by
      the length of the header rebuilt from what was parsed. */
  lemma DecryptParsed(buffer: seq<uint8>, text: string, m: Metadata, key: string, rotationLayers: int)
    requires HeaderText(buffer) == text && ParseMetadata(text) == Success(m)
    requires MetadataLength(m) <= |buffer|
    ensures Decrypt(buffer, key, rotationLayers)
         == Success(DecryptedFile(Scramble(buffer[MetadataLength(m)..], key, rotationLayers),
                                  BlobType(m.originalType), m.originalName, m.originalType))
  {
  }

  /** A parsed header longer than the buffer is rejected. */
  lemma DecryptShort(buffer: seq<uint8>, text: string, m: Metadata, key: string, rotationLayers: int)
    requires HeaderText(buffer) == text && ParseMetadata(text) == Success(m)
    requires |buffer| < MetadataLength(m)
    ensures Decrypt(buffer, key, rotationLayers) == Failure(ShorterThanMetadata)
  {
  }

  /** A header that does not parse is rejected with the parser's error. */
  lemma DecryptRejected(buffer: seq<uint8>, text: string, e: DecryptError, key: string, rotationLayers: int)
    requires HeaderText(buffer) == text && ParseMetadata(text) == Failure(e)
    ensures Decrypt(buffer, key, rotationLayers) == Failure(e)
  {
  }

  /** A buffer that starts with a well-formed header decrypts to that header's
      name and type and to the rest of the buffer, XORed. */
  lemma DecryptFramed(name: string, t: string, rest: seq<uint8>, key: string, rotationLayers: int)
    requires NameSurvivesHeader(name) && '-' !in t
    requires |Encode(MetadataPrefix(name, t))| <= MetadataSearchLimit
    ensures Decrypt(Encode(MetadataPrefix(name, t)) + rest, key, rotationLayers)
         == Success(DecryptedFile(Scramble(rest, key, rotationLayers), BlobType(t), name, t))
  {
    var p := MetadataPrefix(name, t);
    var buffer := Encode(p) + rest;
    assert StartsWith(p, EncryptedMarker) by {
      PrefixLayout(name, t, "");
      assert p + "" == p;
    }
    var junk := HeaderTextFramed(p, rest);
    var text := HeaderText(buffer);
    assert text == p + junk;
    ParseFramed(name, t, junk);
    assert ParseMetadata(text) == Success(Metadata(name, t));
    assert MetadataLength(Metadata(name, t)) == |Encode(p)|;
    assert buffer[|Encode(p)|..] == rest;
  }

  /** Decrypting a container with the key and layers that made it gives back
      the file's bytes, name and type, provided the name is non-empty and does
      not contain or start the type marker, the type has no `-`, and the
      header fits in the 2048-byte search window. */
  lemma RoundTrip(file: SourceFile, key: string, rotationLayers: int)
    requires NameSurvivesHeader(file.name) && '-' !in file.mimeType
    requires |Encode(MetadataPrefix(file.name, file.mimeType))| <= MetadataSearchLimit
    ensures Decrypt(Container(file, key, rotationLayers), key, rotationLayers)
         == Success(DecryptedFile(file.bytes, BlobType(file.mimeType), file.name, file.mimeType))
  {
    DecryptFramed(file.name, file.mimeType, Scramble(file.bytes, key, rotationLayers), key, rotationLayers);
    ScrambleInvolution(file.bytes, key, rotationLayers);
  }

  /** The checks run in a fixed order: each error is reported only when
      every earlier check has passed, and the length check comes after the
      whole header has parsed. */
  lemma DecryptChecksInOrder(buffer: seq<uint8>, key: string, rotationLayers: int)
    ensures var h, r := HeaderText(buffer), Decrypt(buffer, key, rotationLayers);
      var ts := IndexOf(h, TypeMarker, 0);
      && (r == Failure(MissingEncryptedPrefix) <==> !StartsWith(h, EncryptedMarker))
      && (r == Failure(MissingTypeMarker) <==> StartsWith(h, EncryptedMarker) && !Includes(h, TypeMarker))
      && (r == Failure(EmptyOriginalName) <==>
            StartsWith(h, EncryptedMarker) && ts != -1 && Substring(h, |EncryptedMarker|, ts) == "")
      && (r == Failure(MissingEndMarker) <==>
            StartsWith(h, EncryptedMarker) && ts != -1 && Substring(h, |EncryptedMarker|, ts) != ""
            && IndexOf(h, EndMetadataMarker, ts + |TypeMarker|) == -1)
      && (r == Failure(ShorterThanMetadata) <==>
            ParseMetadata(h).Success? && |buffer| < MetadataLength(ParseMetadata(h).value))
      && (r.Success? <==> ParseMetadata(h).Success? && MetadataLength(ParseMetadata(h).value) <= |buffer|)
  {
  }

  /** An empty MIME type is no error: the file comes back with an empty
      type and a `Blob` of type `application/octet-stream`. */
  lemma EmptyTypeOnlyWarns(name: string, rest: seq<uint8>, key: string, rotationLayers: int)
    requires NameSurvivesHeader(name)
    requires |Encode(MetadataPrefix(name, ""))| <= MetadataSearchLimit
    ensures Decrypt(Encode(MetadataPrefix(name, "")) + rest, key, rotationLayers)
         == Success(DecryptedFile(Scramble(rest, key, rotationLayers), "application/octet-stream", name, ""))
  {
    DecryptFramed(name, "", rest, key, rotationLayers);
  }

  /** Nothing checks the key: whether decryption fails, and with which error,
      does not depend on the key or the layers; when it succeeds the name, the
      type and the length `|buffer| - |header|` do not depend on them either. */
  lemma NoKeyAuthentication(buffer: seq<uint8>, k1: string, l1: int, k2: string, l2: int)
    ensures Decrypt(buffer, k1, l1).Success? <==> Decrypt(buffer, k2, l2).Success?
    ensures Decrypt(buffer, k1, l1).Failure? ==> Decrypt(buffer, k1, l1) == Decrypt(buffer, k2, l2)
    ensures Decrypt(buffer, k1, l1).Success? ==>
      var r1, r2 := Decrypt(buffer, k1, l1).value, Decrypt(buffer, k2, l2).value;
      && r1.originalName == r2.originalName && r1.originalType == r2.originalType
      && |r2.bytes| == |buffer| - MetadataLength(Metadata(r1.originalName, r1.originalType))
  {
  }

  /** Decrypting with layers `l2` instead of `l1` XORs every byte of the
      result with `(l1 % 256) ^ (l2 % 256)`. */
  lemma WrongLayers(buffer: seq<uint8>, key: string, l1: int, l2: int)
    requires Decrypt(buffer, key, l1).Success?
    ensures var r1, r2 := Decrypt(buffer, key, l1).value, Decrypt(buffer, key, l2).value;
      |r2.bytes| == |r1.bytes| &&
      forall i :: 0 <= i < |r1.bytes| ==> r2.bytes[i] == Xor(r1.bytes[i], Xor(LayerByte(l1), LayerByte(l2)))
  {
    var r1, r2 := Decrypt(buffer, key, l1).value, Decrypt(buffer, key, l2).value;
    var payload := buffer[MetadataLength(Metadata(r1.originalName, r1.originalType))..];
    forall i | 0 <= i < |r1.bytes|
      ensures r2.bytes[i] == Xor(r1.bytes[i], Xor(LayerByte(l1), LayerByte(l2)))
    {
      XorSwap(Xor(payload[i], KeyByte(key, i)), LayerByte(l1), LayerByte(l2));
    }
  }

  /** Any key and layers decrypt a well-formed container "successfully": the
      name and type come back, and each byte is the original XORed with the
      differences of the key bytes and of the layer bytes. */
  lemma WrongKeyStillDecrypts(file: SourceFile, k1: string, l1: int, k2: string, l2: int)
    requires NameSurvivesHeader(file.name) && '-' !in file.mimeType
    requires |Encode(MetadataPrefix(file.name, file.mimeType))| <= MetadataSearchLimit
    ensures var r := Decrypt(Container(file, k1, l1), k2, l2);
      && r.Success?
      && r.value.originalName == file.name && r.value.originalType == file.mimeType
      && |r.value.bytes| == |file.bytes|
      && forall i :: 0 <= i < |file.bytes| ==>
           r.value.bytes[i] == Xor(file.bytes[i], Xor(Xor(KeyByte(k1, i), KeyByte(k2, i)), Xor(LayerByte(l1), LayerByte(l2))))
  {
    DecryptFramed(file.name, file.mimeType, Scramble(file.bytes, k1, l1), k2, l2);
    ScrambleTwice(file.bytes, k1, l1, k2, l2);
  }

  /** The container of a file whose type is `t1-t2`, seen as the header for
      type `t1` followed by `t2-` and the payload. */
  lemma ContainerOfSplitType(name: string, t1: string, t2: string, bytes: seq<uint8>, key: string, rotationLayers: int)
    ensures Container(SourceFile(name, t1 + "-" + t2, bytes), key, rotationLayers)
         == Encode(MetadataPrefix(name, t1)) + (Encode(t2 + "-") + Scramble(bytes, key, rotationLayers))
  {
    SplitTypeRegroup(EncryptedMarker + name + TypeMarker, t1, EndMetadataMarker, t2);
    EncodeAppend(MetadataPrefix(name, t1), t2 + "-");
  }

  lemma SplitTypeRegroup<T>(p: seq<T>, t1: seq<T>, m: seq<T>, t2: seq<T>)
    ensures p + (t1 + m + t2) + m == (p + t1 + m) + (t2 + m)
  {
  }

  /** A MIME type with a `-` is cut at its first `-`: the type read back is the
      part before it, and the rest of the type, with the header's closing
      `-`, is taken for the start of the payload. */
  lemma HyphenInTypeTruncates(name: string, t1: string, t2: string, bytes: seq<uint8>, key: string, rotationLayers: int)
    requires NameSurvivesHeader(name) && '-' !in t1
    requires |Encode(MetadataPrefix(name, t1))| <= MetadataSearchLimit
    ensures Decrypt(Container(SourceFile(name, t1 + "-" + t2, bytes), key, rotationLayers), key, rotationLayers)
         == Success(DecryptedFile(Scramble(Encode(t2 + "-") + Scramble(bytes, key, rotationLayers), key, rotationLayers),
                                  BlobType(t1), name, t1))
  {
    ContainerOfSplitType(name, t1, t2, bytes, key, rotationLayers);
    DecryptFramed(name, t1, Encode(t2 + "-") + Scramble(bytes, key, rotationLayers), key, rotationLayers);
  }

  lemma PrefixStartsWithMarker(name: string, t: string)
    ensures StartsWith(MetadataPrefix(name, t), EncryptedMarker)
  {
    PrefixLayout(name, t, "");
    assert MetadataPrefix(name, t) + "" == MetadataPrefix(name, t);
  }

  /** The header of a name `type:<suffix>` parses as name `-` and type `<suffix>`. */
  lemma ParseTypeColonName(suffix: string, t: string, junk: string)
    requires '-' !in suffix
    ensures ParseMetadata(MetadataPrefix("type:" + suffix, t) + junk) == Success(Metadata("-", suffix))
  {
    var name := "type:" + suffix;
    var text := MetadataPrefix(name, t) + junk;
    var q := |EncryptedMarker| + |name|;
    PrefixLayout(name, t, junk);
    assert text[10..15] == name[..5] == "type:";
    assert text[9..15] == [text[9]] + text[10..15];
    assert text[9..15] == TypeMarker;
    forall k | 0 <= k < 9 ensures !OccursAt(text, TypeMarker, k) {
      assert text[k] == EncryptedMarker[k];
      assert text[k..k + 6][0] != TypeMarker[0];
    }
    IndexOfIs(text, TypeMarker, 0, 9);
    assert Substring(text, 10, 9) == "-";
    assert text[15..q] == suffix;
    assert text[q] == TypeMarker[0] == '-';
    assert OccursAt(text, EndMetadataMarker, q) by {
      assert text[q..q + 1] == [text[q]];
    }
    forall k | 15 <= k < q ensures !OccursAt(text, EndMetadataMarker, k) {
      assert text[k] == suffix[k - 15];
      assert text[k..k + 1][0] == text[k];
    }
    IndexOfIs(text, EndMetadataMarker, 15, q);
  }

  /** The byte lengths of the fixed pieces of a header. */
  lemma MarkerLengths()
    ensures |Encode(EncryptedMarker)| == 10 && |Encode(TypeMarker)| == 6 && |Encode(EndMetadataMarker)| == 1
  {
  }

  lemma PieceLengths()
    ensures |Encode("type:")| == 5 && |Encode("-ty")| == 3
  {
  }

  /** A header encodes piece by piece. */
  lemma EncodePrefixPieces(name: string, t: string)
    ensures Encode(MetadataPrefix(name, t))
         == Encode(EncryptedMarker) + Encode(name) + Encode(TypeMarker) + Encode(t) + Encode(EndMetadataMarker)
  {
    EncodeAppend(EncryptedMarker + name + TypeMarker + t, EndMetadataMarker);
    EncodeAppend(EncryptedMarker + name + TypeMarker, t);
    EncodeAppend(EncryptedMarker + name, TypeMarker);
    EncodeAppend(EncryptedMarker, name);
  }

  lemma TypeMarkerPieces()
    ensures Encode(TypeMarker) == Encode("-ty") + Encode("pe:")
  {
    assert TypeMarker == "-ty" + "pe:";
    EncodeAppend("-ty", "pe:");
  }

  lemma DropPast<T>(x: seq<T>, y: seq<T>, n: nat)
    requires |x| <= n <= |x| + |y|
    ensures (x + y)[n..] == y[n - |x|..]
  {
  }

  lemma TakeAfter<T>(x: seq<T>, y: seq<T>, n: int)
    requires |x| <= n
    ensures (x + y)[..Min(n, |x + y|)] == x + y[..Min(n - |x|, |y|)]
  {
  }

  lemma DropAppend<T>(x: seq<T>, y: seq<T>, n: nat)
    requires n <= |x|
    ensures (x + y)[n..] == x[n..] + y
  {
  }

  lemma Regroup5<T>(a: seq<T>, b: seq<T>, c: seq<T>, d: seq<T>, f: seq<T>)
    ensures a + b + c + d + f == (a + b) + ((c + d) + f)
  {
  }

  lemma Assoc4<T>(a: seq<T>, b: seq<T>, c: seq<T>, d: seq<T>)
    ensures a + b + c + d == a + (b + (c + d))
  {
  }

  lemma PrefixOfEmptyType(name: string)
    ensures MetadataPrefix(name, "") == EncryptedMarker + name + (TypeMarker + EndMetadataMarker)
  {
  }

  lemma Regroup<T>(x: seq<T>, c: seq<T>, d: seq<T>, e: seq<T>, f: seq<T>)
    ensures x + (c + d) + e + f == (x + c) + (d + e + f)
  {
  }

  /** The header rebuilt from name `-` and type `<suffix>` is as long, in bytes,
      as `encrypted-type:<suffix>-ty`, the part of the written header before
      `pe:<type>-`. */
  lemma TypeColonOffsets(suffix: string, t: string)
    ensures var full := Encode(MetadataPrefix("type:" + suffix, t));
      var n := |Encode(MetadataPrefix("-", suffix))|;
      n <= |full| && full[n..] == Encode("pe:" + t + "-")
  {
    var full := Encode(MetadataPrefix("type:" + suffix, t));
    EncodePrefixPieces("type:" + suffix, t);
    EncodePrefixPieces("-", suffix);
    EncodeAppend("type:", suffix);
    TypeMarkerPieces();
    MarkerLengths();
    PieceLengths();
    var front := Encode(EncryptedMarker) + (Encode("type:") + Encode(suffix)) + Encode("-ty");
    var back := Encode("pe:") + Encode(t) + Encode(EndMetadataMarker);
    Regroup(Encode(EncryptedMarker) + (Encode("type:") + Encode(suffix)), Encode("-ty"), Encode("pe:"),
            Encode(t), Encode(EndMetadataMarker));
    assert |front| == |Encode(MetadataPrefix("-", suffix))|;
    assert full[|front|..] == back;
    EncodeAppend("pe:" + t, "-");
    EncodeAppend("pe:", t);
  }

  /** A name starting with `type:` is misread: the hyphen of `encrypted-`
      together with that `type:` is found as the type marker, the name read
      back is `-`, the rest of the name is taken for the type, and the header
      is then three bytes short, so `pe:`, the real type and the closing `-`
      are taken for the start of the payload. */
  lemma NameStartingWithTypeColon(suffix: string, t: string, bytes: seq<uint8>, key: string, rotationLayers: int)
    requires '-' !in suffix
    requires |Encode(MetadataPrefix("type:" + suffix, t))| <= MetadataSearchLimit
    ensures Decrypt(Container(SourceFile("type:" + suffix, t, bytes), key, rotationLayers), key, rotationLayers)
         == Success(DecryptedFile(Scramble(Encode("pe:" + t + "-") + Scramble(bytes, key, rotationLayers), key, rotationLayers),
                                  BlobType(suffix), "-", suffix))
  {
    var p := MetadataPrefix("type:" + suffix, t);
    var s := Scramble(bytes, key, rotationLayers);
    var buffer := Encode(p) + s;
    PrefixStartsWithMarker("type:" + suffix, t);
    var junk := HeaderTextFramed(p, s);
    ParseTypeColonName(suffix, t, junk);
    TypeColonOffsets(suffix, t);
    DropAppend(Encode(p), s, MetadataLength(Metadata("-", suffix)));
    DecryptParsed(buffer, p + junk, Metadata("-", suffix), key, rotationLayers);
  }

  lemma ParseEmptyName(junk: string)
    ensures ParseMetadata(EncryptedMarker + TypeMarker + junk) == Failure(EmptyOriginalName)
  {
    var text := EncryptedMarker + TypeMarker + junk;
    assert text[10..16] == TypeMarker;
    forall k | 0 <= k < 10 ensures !OccursAt(text, TypeMarker, k) {
      assert text[k] == EncryptedMarker[k] && text[k + 1] == (EncryptedMarker + TypeMarker)[k + 1];
      assert text[k..k + 6][0] == text[k] && text[k..k + 6][1] == text[k + 1];
    }
    IndexOfIs(text, TypeMarker, 0, 10);
  }

  lemma ContainerOfEmptyName(t: string, bytes: seq<uint8>, key: string, rotationLayers: int)
    ensures Container(SourceFile("", t, bytes), key, rotationLayers)
         == Encode(EncryptedMarker + TypeMarker) + (Encode(t + EndMetadataMarker) + Scramble(bytes, key, rotationLayers))
    ensures |Encode(EncryptedMarker + TypeMarker)| == 16
  {
    EmptyNamePrefix(t);
    EmptyNameMarkersLength();
  }

  lemma EmptyNamePrefix(t: string)
    ensures Encode(MetadataPrefix("", t)) == Encode(EncryptedMarker + TypeMarker) + Encode(t + EndMetadataMarker)
  {
    assert MetadataPrefix("", t) == (EncryptedMarker + TypeMarker) + (t + EndMetadataMarker);
    EncodeAppend(EncryptedMarker + TypeMarker, t + EndMetadataMarker);
  }

  lemma EmptyNameMarkersLength()
    ensures |Encode(EncryptedMarker + TypeMarker)| == 16
  {
    EncodeAppend(EncryptedMarker, TypeMarker);
    MarkerLengths();
  }

  /** A container made from a file with an empty name is always rejected
      with the empty-name error. */
  lemma EmptyNameRejected(t: string, bytes: seq<uint8>, key: string, rotationLayers: int)
    ensures Decrypt(Container(SourceFile("", t, bytes), key, rotationLayers), key, rotationLayers)
         == Failure(EmptyOriginalName)
  {
    var p0 := EncryptedMarker + TypeMarker;
    var rest := Encode(t + EndMetadataMarker) + Scramble(bytes, key, rotationLayers);
    ContainerOfEmptyName(t, bytes, key, rotationLayers);
    assert StartsWith(p0, EncryptedMarker) by {
      assert p0[..|EncryptedMarker|] == EncryptedMarker;
    }
    var junk := HeaderTextFramed(p0, rest);
    ParseEmptyName(junk);
    DecryptRejected(Encode(p0) + rest, p0 + junk, EmptyOriginalName, key, rotationLayers);
  }

  /** An ASCII string's encoding cut after `n` bytes is the encoding of its
      first `n` characters. */
  lemma EncodeAsciiPrefix(s: string, n: nat)
    requires IsAscii(s) && n <= |s|
    ensures Encode(s)[..n] == Encode(s[..n])
  {
    assert s == s[..n] + s[n..];
    EncodeAppend(s[..n], s[n..]);
    EncodeAscii(s[..n]);
  }

  /** With an ASCII name of 2038 characters or more the type marker lies
      beyond the 2048-byte search window, and a container that is otherwise
      well formed is rejected. */
  lemma LongNameRejected(name: string, t: string, bytes: seq<uint8>, key: string, rotationLayers: int)
    requires NameSurvivesHeader(name) && IsAscii(name)
    requires |EncryptedMarker| + |name| >= MetadataSearchLimit
    ensures Decrypt(Container(SourceFile(name, t, bytes), key, rotationLayers), key, rotationLayers)
         == Failure(MissingTypeMarker)
  {
    var window := LongNameWindow(name, t, bytes, key, rotationLayers);
    var text := MetadataPrefix(name, t) + "";
    forall k | 0 <= k ensures !OccursAt(window, TypeMarker, k) {
      if OccursAt(window, TypeMarker, k) {
        OccursInPrefix(text, MetadataSearchLimit, TypeMarker, k);
        NoEarlyTypeMarker(name, t, "", k);
      }
    }
  }

  /** With such a name the header text is the first 2048 characters of
      `encrypted-<name>`. */
  lemma LongNameWindow(name: string, t: string, bytes: seq<uint8>, key: string, rotationLayers: int)
    returns (window: string)
    requires IsAscii(name)
    requires |EncryptedMarker| + |name| >= MetadataSearchLimit
    ensures HeaderText(Container(SourceFile(name, t, bytes), key, rotationLayers)) == window
    ensures window == (MetadataPrefix(name, t) + "")[..MetadataSearchLimit]
    ensures window == (EncryptedMarker + name)[..MetadataSearchLimit]
  {
    var s := EncryptedMarker + name;
    var full := MetadataPrefix(name, t);
    var buffer := Container(SourceFile(name, t, bytes), key, rotationLayers);
    assert IsAscii(s) by {
      forall i | 0 <= i < |s| ensures s[i] as int < 0x80 {
        if i >= |EncryptedMarker| {
          assert s[i] == name[i - |EncryptedMarker|];
        }
      }
    }
    assert full == s + (TypeMarker + t + EndMetadataMarker);
    EncodeAppend(s, TypeMarker + t + EndMetadataMarker);
    EncodeAscii(s);
    EncodeAsciiPrefix(s, MetadataSearchLimit);
    window := s[..MetadataSearchLimit];
    assert buffer[..Min(MetadataSearchLimit, |buffer|)] == Encode(window);
    assert window[0] == 'e';
    assert Encode(window) == EncodeChar(window[0]) + Encode(window[1..]);
    DecodeEncodePrefix(window, []);
    assert Encode(window) + [] == Encode(window);
    assert full + "" == full;
  }

  /** A lone 0xFF byte is an ill-formed subpart of its own. */
  lemma InvalidByteDecodes(z: seq<uint8>)
    ensures DecodeNoBom([0xFF] + z) == [Replacement] + DecodeNoBom(z)
  {
    assert DecodeOne([0xFF] + z) == (1, Replacement);
    assert ([0xFF] + z)[1..] == z;
  }

  /** The bytes in front of the payload when the name is the single byte 0xFF. */
  function InvalidNameHeader(): seq<uint8> {
    Encode(EncryptedMarker) + [0xFF] + Encode(TypeMarker + EndMetadataMarker)
  }

  lemma InvalidNameHeaderLength()
    ensures |InvalidNameHeader()| == 18 && InvalidNameHeader()[0] == 'e' as int
  {
    EncodeAppend(TypeMarker, EndMetadataMarker);
    MarkerLengths();
    assert Encode(EncryptedMarker)[0] == 'e' as int;
  }

  /** The header text of a buffer whose name is the single byte 0xFF. */
  lemma InvalidNameHeaderText(rest: seq<uint8>) returns (junk: string)
    ensures HeaderText(InvalidNameHeader() + rest) == MetadataPrefix([Replacement], "") + junk
  {
    var x := InvalidNameHeader();
    InvalidNameHeaderLength();
    var w := rest[..Min(MetadataSearchLimit - |x|, |rest|)];
    TakeAfter(x, rest, MetadataSearchLimit);
    junk := DecodeNoBom(w);
    var tail := Encode(TypeMarker + EndMetadataMarker);
    Assoc4(Encode(EncryptedMarker), [0xFF], tail, w);
    assert !StartsWithBom(x + w);
    DecodeEncodePrefix(EncryptedMarker, [0xFF] + (tail + w));
    InvalidByteDecodes(tail + w);
    DecodeEncodePrefix(TypeMarker + EndMetadataMarker, w);
    PrefixOfEmptyType([Replacement]);
    Assoc4(EncryptedMarker, [Replacement], TypeMarker + EndMetadataMarker, junk);
  }

  lemma InvalidNameLength()
    ensures MetadataLength(Metadata([Replacement], "")) == 20
  {
    EncodePrefixPieces([Replacement], "");
    MarkerLengths();
    assert Encode([Replacement]) == EncodeChar(Replacement) + Encode([]);
  }

  /** A header whose name holds a byte that is not UTF-8 is read with U+FFFD
      in its place, which re-encodes to three bytes: the payload offset moves
      two bytes too far, and a short container is rejected as too short. */
  lemma InvalidNameByte(rest: seq<uint8>, key: string, rotationLayers: int)
    ensures Decrypt(InvalidNameHeader() + rest, key, rotationLayers)
         == if |rest| < 2 then Failure(ShorterThanMetadata)
            else Success(DecryptedFile(Scramble(rest[2..], key, rotationLayers), BlobType(""), [Replacement], ""))
  {
    var buffer := InvalidNameHeader() + rest;
    var junk := InvalidNameHeaderText(rest);
    assert NameSurvivesHeader([Replacement]) by {
      IncludesIff([Replacement], TypeMarker);
    }
    ParseFramed([Replacement], "", junk);
    var m := Metadata([Replacement], "");
    InvalidNameLength();
    InvalidNameHeaderLength();
    if |rest| < 2 {
      DecryptShort(buffer, MetadataPrefix([Replacement], "") + junk, m, key, rotationLayers);
    } else {
      DropPast(InvalidNameHeader(), rest, 20);
      DecryptParsed(buffer, MetadataPrefix([Replacement], "") + junk, m, key, rotationLayers);
    }
  }
}
