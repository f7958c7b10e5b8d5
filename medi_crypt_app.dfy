/** The decisions `MediCryptApp` makes around the container: which key it
    hands to the profile after encryption, how it checks the entered key
    against the saved one after decryption, how it names a download, and when
    an error message is about e-mail. */
module MediCryptApp {
  import opened Wrappers
  import opened JsString
  import opened Utf8
  import opened RubikContainer
  import RubikProperties

  /** What the key comparison after a successful decryption reports. */
  datatype KeyCheck =
    | KeyMatchesStored      // a key is saved for the name and equals the entered one
    | PossibleKeyMismatch   // a key is saved and differs: a warning, nothing more
    | KeyNotVerified        // no key, or an empty one, is saved for the name

  /** Where `handleDecrypt` ends. */
  datatype DecryptOutcome =
    | NoFileSelected
    | NoDecryptionKey
    | DecryptionFailed(error: DecryptError)
    | Decrypted(file: DecryptedFile, keyCheck: KeyCheck)

  datatype Mode = EncryptMode | DecryptMode

  /** `decryptedFileInfo`: the name and type read from the header. */
  datatype FileInfo = FileInfo(name: string, mimeType: string)

  /** The profile map after `handleEncrypt`: the key is handed to
      `onUpdateEncryptedFiles` only when both the file name and the key are
      non-empty. */
  function SaveKey(encryptedFiles: map<string, string>, originalFilename: string, generatedKey: string)
    : (files: map<string, string>)
    ensures originalFilename != "" && generatedKey != "" ==>
      originalFilename in files && files[originalFilename] == generatedKey
    ensures originalFilename != "" && generatedKey != "" ==>
      forall n :: n != originalFilename ==>
        (n in files <==> n in encryptedFiles) && (n in encryptedFiles ==> files[n] == encryptedFiles[n])
    ensures originalFilename == "" || generatedKey == "" ==> files == encryptedFiles
  {
    if originalFilename != "" && generatedKey != "" then encryptedFiles[originalFilename := generatedKey]
    else encryptedFiles
  }

  /** `storedKey && storedKey !== decryptionKeyInput`, then `!storedKey`. */
  function CheckStoredKey(encryptedFiles: map<string, string>, originalName: string, decryptionKeyInput: string)
    : (r: KeyCheck)
    ensures r == KeyMatchesStored <==>
      originalName in encryptedFiles && encryptedFiles[originalName] != "" && encryptedFiles[originalName] == decryptionKeyInput
    ensures r == PossibleKeyMismatch <==>
      originalName in encryptedFiles && encryptedFiles[originalName] != "" && encryptedFiles[originalName] != decryptionKeyInput
    ensures r == KeyNotVerified <==>
      originalName !in encryptedFiles || encryptedFiles[originalName] == ""
  {
    var storedKey := if originalName in encryptedFiles then encryptedFiles[originalName] else "";
    if storedKey != "" && storedKey != decryptionKeyInput then PossibleKeyMismatch
    else if storedKey == "" then KeyNotVerified
    else KeyMatchesStored
  }

  /** `handleDecrypt`: the two early returns, then decryption of the selected
      file's bytes and the comparison with the saved key. */
  function HandleDecrypt(selectedFile: Option<seq<uint8>>, decryptionKeyInput: string, rotationLayers: int,
                         encryptedFiles: map<string, string>): (r: DecryptOutcome)
    ensures selectedFile.None? ==> r == NoFileSelected
    ensures selectedFile.Some? && decryptionKeyInput == "" ==> r == NoDecryptionKey
    ensures selectedFile.Some? && decryptionKeyInput != "" ==>
      match Decrypt(selectedFile.value, decryptionKeyInput, rotationLayers)
      case Failure(e) => r == DecryptionFailed(e)
      case Success(f) =>
        r.Decrypted? && r.file == f && r.keyCheck == CheckStoredKey(encryptedFiles, f.originalName, decryptionKeyInput)
  {
    if selectedFile.None? then NoFileSelected
    else if decryptionKeyInput == "" then NoDecryptionKey
    else
      match Decrypt(selectedFile.value, decryptionKeyInput, rotationLayers)
      case Failure(e) => DecryptionFailed(e)
      case Success(f) => Decrypted(f, CheckStoredKey(encryptedFiles, f.originalName, decryptionKeyInput))
  }

  /** A saved key that differs from the entered one only changes the warning:
      with any two profile maps the decrypted file, or the error, is the same. */
  lemma MismatchOnlyWarns(buffer: seq<uint8>, key: string, rotationLayers: int,
                          files1: map<string, string>, files2: map<string, string>)
    requires key != ""
    ensures var r1 := HandleDecrypt(Some(buffer), key, rotationLayers, files1);
      var r2 := HandleDecrypt(Some(buffer), key, rotationLayers, files2);
      && r1.Decrypted? == r2.Decrypted?
      && (r1.DecryptionFailed? ==> r1 == r2)
      && (r1.Decrypted? ==> r1.file == r2.file)
  {
  }

  /** Encrypting a file, saving its key the way `handleEncrypt` does and
      decrypting the container with the same key and layers gives the file
      back and reports that the key matches the saved one. */
  lemma EncryptSaveDecrypt(file: SourceFile, key: string, rotationLayers: int, encryptedFiles: map<string, string>)
    requires key != ""
    requires RubikProperties.NameSurvivesHeader(file.name) && '-' !in file.mimeType
    requires |Encode(MetadataPrefix(file.name, file.mimeType))| <= MetadataSearchLimit
    ensures HandleDecrypt(Some(Container(file, key, rotationLayers)), key, rotationLayers,
                          SaveKey(encryptedFiles, file.name, key))
         == Decrypted(DecryptedFile(file.bytes, BlobType(file.mimeType), file.name, file.mimeType), KeyMatchesStored)
  {
    RubikProperties.RoundTrip(file, key, rotationLayers);
  }

  /** `constructEncryptedFilename`: `.encrypted` goes in front of the last
      `.`-separated piece, or at the end when there is no `.`. */
  function ConstructEncryptedFilename(originalName: string): (r: string)
    ensures |r| == |originalName| + |".encrypted"|
  {
    var parts := Split(originalName, '.');
    if |parts| > 1 then
      var ext := parts[|parts| - 1];
      assert parts == parts[..|parts| - 1] + [ext];
      JoinSplit(originalName, '.');
      JoinSnoc(parts[..|parts| - 1], ext, ".");
      Join(parts[..|parts| - 1], ".") + ".encrypted." + ext
    else originalName + ".encrypted"
  }

  lemma EncryptedFilenameWithExtension(stem: string, ext: string)
    requires '.' !in ext
    ensures ConstructEncryptedFilename(stem + "." + ext) == stem + ".encrypted." + ext
  {
    SplitLastPiece(stem, ext, '.');
    var ps := Split(stem, '.');
    var parts := Split(stem + "." + ext, '.');
    assert parts[..|parts| - 1] == ps;
    JoinSplit(stem, '.');
  }

  lemma EncryptedFilenameWithoutDot(originalName: string)
    requires '.' !in originalName
    ensures ConstructEncryptedFilename(originalName) == originalName + ".encrypted"
  {
    SplitNoSeparator(originalName, '.');
  }

  /** Every name with a `.` is a stem, a `.` and a last piece without `.`; with
      the two lemmas above this fixes `ConstructEncryptedFilename` everywhere. */
  lemma {:induction false} LastDot(s: string) returns (stem: string, ext: string)
    requires '.' in s
    ensures s == stem + "." + ext && '.' !in ext
    decreases |s|
  {
    if s[|s| - 1] == '.' {
      stem, ext := s[..|s| - 1], "";
      assert s == s[..|s| - 1] + [s[|s| - 1]];
    } else {
      var init := s[..|s| - 1];
      assert s == init + [s[|s| - 1]];
      var k :| 0 <= k < |s| && s[k] == '.';
      assert init[k] == '.';
      var ext0;
      stem, ext0 := LastDot(init);
      ext := ext0 + [s[|s| - 1]];
      assert '.' !in ext by {
        forall i | 0 <= i < |ext| ensures ext[i] != '.' {
          if i < |ext0| {
            assert ext[i] == ext0[i];
          }
        }
      }
    }
  }

  /** `knownExtensions` of `handleDownload`. */
  const KnownExtensions: map<string, string> := map[
    "image/jpeg" := ".jpg",
    "image/png" := ".png",
    "image/gif" := ".gif",
    "application/dicom" := ".dcm",
    "application/octet-stream" := ".bin"
  ]

  /** The extension the fallback appends: the known one, or `.bin`. */
  function ExtensionFor(mimeType: string): (ext: string)
    ensures ext in {".jpg", ".png", ".gif", ".dcm", ".bin"}
    ensures mimeType in KnownExtensions ==> ext == KnownExtensions[mimeType]
    ensures mimeType !in KnownExtensions ==> ext == ".bin"
  {
    if mimeType in KnownExtensions then KnownExtensions[mimeType] else ".bin"
  }

  /** The name the fallback of `handleDownload` starts from. */
  function FallbackBase(mode: Mode): (base: string)
    ensures '.' !in base
  {
    if mode == EncryptMode then "encrypted_output" else "decrypted_output"
  }

  /** `handleDownload`'s choice of file name for a blob of type `blobType`
      (`None` when there is no blob, and nothing is downloaded). The
      `defaultFilename` the buttons pass is overwritten on every path. */
  method HandleDownload(blobType: Option<string>, defaultFilename: Option<string>, mode: Mode,
                        decryptedFileInfo: Option<FileInfo>, selectedFileName: Option<string>)
    returns (download: Option<string>)
    ensures blobType.None? ==> download.None?
    ensures blobType.Some? && mode == DecryptMode && decryptedFileInfo.Some? && decryptedFileInfo.value.name != ""
            ==> download == Some(decryptedFileInfo.value.name)
    ensures blobType.Some? && mode == EncryptMode && selectedFileName.Some?
            ==> download == Some(ConstructEncryptedFilename(selectedFileName.value))
    ensures blobType.Some? && !(mode == DecryptMode && decryptedFileInfo.Some? && decryptedFileInfo.value.name != "")
            && !(mode == EncryptMode && selectedFileName.Some?)
            ==> download == Some(FallbackBase(mode) + ExtensionFor(blobType.value))
  {
    if blobType.None? {
      return None;
    }
    var filename := defaultFilename.GetOr("");
    if filename == "" {
      filename := "download";
    }
    if mode == DecryptMode && decryptedFileInfo.Some? && decryptedFileInfo.value.name != "" {
      filename := decryptedFileInfo.value.name;
    } else if mode == EncryptMode && selectedFileName.Some? {
      var originalName := selectedFileName.value;
      filename := ConstructEncryptedFilename(originalName);
    } else {
      filename := if mode == EncryptMode then "encrypted_output" else "decrypted_output";
      var mimeType := blobType.value;
      IncludesChar(filename, '.');
      if mimeType != "" && mimeType in KnownExtensions && KnownExtensions[mimeType] != "" && !Includes(filename, ".") {
        filename := filename + KnownExtensions[mimeType];
      } else if !Includes(filename, ".") {
        filename := filename + ".bin";
      }
    }
    download := Some(filename);
  }

  /** A fallback download name splits at `.` into the base and the extension
      without its dot: it carries exactly one `.`. */
  lemma FallbackNameSplits(mode: Mode, mimeType: string)
    ensures var ext := ExtensionFor(mimeType);
      Split(FallbackBase(mode) + ext, '.') == [FallbackBase(mode), ext[1..]]
  {
    var base := FallbackBase(mode);
    var ext := ExtensionFor(mimeType);
    assert ext == "." + ext[1..] && '.' !in ext[1..] by {
      if ext == ".jpg" {} else if ext == ".png" {} else if ext == ".gif" {} else if ext == ".dcm" {} else {}
    }
    assert base + ext == base + "." + ext[1..];
    SplitLastPiece(base, ext[1..], '.');
    SplitNoSeparator(base, '.');
  }

  /** `errorMessageIncludesEmail`: a non-empty message whose lower-case form
      contains `email` or `emailjs`. */
  predicate ErrorMessageIncludesEmail(error: Option<string>) {
    error.Some? && error.value != ""
    && (Includes(ToLower(error.value), "email") || Includes(ToLower(error.value), "emailjs"))
  }

  /** The `emailjs` test adds nothing: the predicate holds exactly when there
      is a message and its lower-case form contains `email`. */
  lemma ErrorMessageIncludesEmailIff(error: Option<string>)
    ensures ErrorMessageIncludesEmail(error) <==> error.Some? && Includes(ToLower(error.value), "email")
  {
    if error.Some? {
      var s := ToLower(error.value);
      IncludesIff(s, "email");
      IncludesIff(s, "emailjs");
      if Includes(s, "emailjs") {
        var k :| OccursAt(s, "emailjs", k);
        assert s[k..k + 5] == s[k..k + 7][..5];
        assert OccursAt(s, "email", k);
      }
      if Includes(s, "email") {
        var k :| OccursAt(s, "email", k);
        assert |error.value| > 0;
      }
    }
  }
}
